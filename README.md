# Catalog service: product and category stores

A Dafny model of the two services of a NestJS/Mongoose catalog backend.
Each service keeps one MongoDB collection, modelled as an in-memory keyed
table: a `map<Id, Record>` of documents plus a `seq<Id>` giving the
collection's natural (insertion) order, which pagination and the discount
aggregate depend on.

- **Category store** (`CategoryStore.CategoryService`): create (schema
  defaults `parent = null`, `discount = 0`; only the schema's non-empty
  `name` is checked, never the parent), partial update with a not-found
  error, lookup by id, and a paginated read.
- **Product store** (`ProductStore.ProductService`): create with a
  duplicate-code check, update whose duplicate-code check runs *before* the
  existence check (so an unknown id with a taken code fails as a
  duplicate) and whose filter `exists({ code })` does not exclude the
  product's own id (so it also fires for the product's own code), lookup by
  id, a paginated read, and the discount quote `getDiscount`.
- **Schema validation**: `name` (both collections) and `code` (products)
  are `required: true` strings, so `create` and `save` refuse a document
  in which one is empty; the model reports this as `ValidationFailed`,
  after the service's own checks, and the stored documents always pass.
- **Discount quote** (`ProductStore.ResolveDiscount`): the product is found
  by code; its own discount is used when truthy; otherwise the code runs a
  `$lookup`/`$unwind` join of the *whole* product collection against the
  categories, reads only `data[0]`, and asks the category service's
  `findDiscount` about the parent of that row's category. The amount after
  discount is `amount - discount`.

Module layout: `Common` (ids, `Option`, `Result`, error kinds),
`Tables` (table invariant, ordered listing, `skip`/`limit` paging),
`CategoryStore`, `ProductStore`, and `Scenarios` (client runs proved from
the services' contracts, mirroring the unit tests).

Modelling choices:

- Ids are natural numbers; each store hands out ids from its own counter,
  standing for MongoDB's ObjectId generation.
- A request body is a datatype whose optional keys are `Option`s: `None`
  is an omitted key. For nullable stored fields (`parent`, a product's
  `discount`) an update may carry an explicit null, written `Some(None)`.
- `categoryService.findDiscount`, whose body is not part of this model, is
  passed to the quote as a function parameter `Option<Id> -> int` with no
  contract; nothing is assumed about it.
- Paging follows the database's reading of `skip`/`limit`: a negative skip
  is refused (`NegativeSkip`), a limit of 0 means no limit, and a negative
  limit returns as many documents as its absolute value.
- A join with no rows makes `data[0].category` throw; the model reports
  this as `NoJoinedCategory`.
- Reads are functions, so "a read leaves the store unchanged" holds by
  construction; the update methods state their whole new state.

Behaviours of the code that the model keeps as written:

- The quote computes `amount - discount`, not a percentage, with no `-1`
  "no discount" sentinel. A product with discount 5 and amount 1000 gets
  995 (`Scenarios.OwnDiscountQuote`).
- The fallback does not walk up from the product's own category. It joins
  every product, takes the first joined row in store order (whichever
  product it belongs to), and passes that category's *parent* to
  `findDiscount`. The joined category's own discount is never read.
- A product discount of 0 is falsy and triggers the fallback; 0 is not
  treated as a final value.
- Updating a product with the code it already holds is refused as a
  duplicate, as `product.service.spec.ts:167-182` expects.

## Model

| member | source | states |
|---|---|---|
| Tables.Listing | src/modules/product/product.service.ts:19 | the documents `find({})` yields: one per id in store order, entry `k` being the document stored under `order[k]` |
| Tables.Page | src/modules/product/product.service.ts:17-22 | `skip((page-1)*pageSize).limit(pageSize)`: fails with `NegativeSkip` exactly when the skip is negative; otherwise entry `i` is listing entry `skip + i`, the length is `min(|pageSize|, remaining)`, and a page size of 0 returns the whole listing |
| Tables.PageIsSlice | src/modules/category/category.service.ts:13-18 | for `page >= 1` and `pageSize >= 1` the page is the contiguous run `listing[skip..min(skip + pageSize, n)]`, or empty past the end |
| Tables.EveryDocumentOnItsPage | src/modules/product/product.service.ts:18-19 | with a positive page size, document `i` is entry `i % pageSize` of page `i / pageSize + 1` |
| Tables.NoDocumentOnTwoPages | src/modules/category/category.service.ts:14-15 | with a positive page size, entry `j` of page `page` is listing document `i = (page-1)*pageSize + j`, and that `i` fixes both the page (`i / pageSize + 1`) and the place (`i % pageSize`), so no document appears on two pages or twice |
| Tables.PageFromTable | src/modules/product/product.service.ts:19 | every entry of a page of a table's listing is a document stored in the table |
| Tables.ListingOverwrite | src/modules/category/category.service.ts:47-48 | overwriting the document under `id` changes the listing at the position of `id` and nowhere else |
| CategoryStore.NewCategoryDefaults | src/modules/category/models/category.model.ts:10-18 | a created category keeps the given name and parent; an omitted parent is null and an omitted discount is 0 |
| CategoryStore.PatchOverwritesSuppliedFields | src/modules/category/category.service.ts:47 | `set(body)` overwrites exactly the supplied fields, keeps the omitted ones, is idempotent, and an empty body changes nothing |
| CategoryStore.CategoryService.Categories | src/modules/category/category.service.ts:15 | `find({})`: one document per id in store order, entry `k` being the document under `order[k]` |
| CategoryStore.CategoryService.GetCategories | src/modules/category/category.service.ts:13-18 | the `Tables.Page` of the service's own listing: fails exactly when the skip is negative, every entry is a stored category, and a page holds at most `|pageSize|` entries |
| CategoryStore.CategoryService.GetCategoryById | src/modules/category/category.service.ts:20-30 | returns the stored document exactly when the id is present, otherwise fails with `CategoryNotFound` |
| CategoryStore.CategoryService.CreateCategory | src/modules/category/category.service.ts:32-37 | fails with `ValidationFailed`, store unchanged, exactly when the name is empty (`category.model.ts:7`); otherwise adds exactly one document under a fresh id, appended to the store order, carrying the given fields with the schema defaults; existing documents untouched; the new id is then found by `GetCategoryById` |
| CategoryStore.CategoryService.UpdateCategory | src/modules/category/category.service.ts:39-49 | an unknown id fails with `CategoryNotFound`; then a patch that empties the name fails on `save` with `ValidationFailed`; failures leave the store unchanged; success gets the patched document and no other document, the id or the order changes; the parent link is not checked |
| ProductStore.PatchOverwritesSuppliedFields | src/modules/product/product.service.ts:61 | `set(body)` always sets the code, overwrites exactly the other supplied fields, keeps the omitted ones, and is idempotent |
| ProductStore.FindOne | src/modules/product/product.service.ts:69 | `findOne({ code })`: the first position in store order holding the code, or none exactly when no stored product has it |
| ProductStore.FindOneMatchesCodeTaken | src/modules/product/product.service.ts:37 | on a well-formed table the search succeeds if and only if some stored product has the code (`exists({ code })`) |
| ProductStore.FindOneFindsHolder | src/modules/product/product.service.ts:69-77 | with unique codes, looking up a product's code finds that very product |
| ProductStore.InsertKeepsCodesUnique | src/modules/product/product.service.ts:37-42 | inserting a product whose code is not taken keeps codes unique across the store |
| ProductStore.OverwriteKeepsCodesUnique | src/modules/product/product.service.ts:49-62 | overwriting a product with one whose code is not taken keeps codes unique |
| ProductStore.Joined | src/modules/product/product.service.ts:80-94 | the `$lookup`/`$unwind` rows: every row is for a product whose parent names a stored category and carries that category; every such product has its row; on a duplicate-free order no product has two rows |
| ProductStore.JoinedHead | src/modules/product/product.service.ts:80-98 | `data[0]` belongs to the first product in store order whose parent names a stored category |
| ProductStore.JoinedEmpty | src/modules/product/product.service.ts:80-98 | the join is empty if and only if no product's parent names a stored category |
| ProductStore.ResolveDiscount | src/modules/product/product.service.ts:65-106 | fails with `ProductNotFound` exactly when no product has the code; the only other failure is `NoJoinedCategory`, and only when the join is empty; every quote has `amountAfterDiscount == amount - discount` |
| ProductStore.OwnDiscountWins | src/modules/product/product.service.ts:78-79 | a product with a truthy discount gets exactly that discount, for every category table and every `findDiscount` |
| ProductStore.FallbackUsesFirstJoined | src/modules/product/product.service.ts:79-98 | a product whose discount is 0 or absent gets `findDiscount(c.parent)`, where `c` is the category of the first product in store order whose parent names a stored category |
| ProductStore.FallbackFailsWithoutJoin | src/modules/product/product.service.ts:96-98 | a product whose discount is 0 or absent fails with `NoJoinedCategory` when no product's parent names a stored category |
| ProductStore.FallbackIgnoresRequestedProduct | src/modules/product/product.service.ts:80-94 | the aggregate has no match stage: any two products without a truthy discount get the same quote |
| ProductStore.ProductService.Products | src/modules/product/product.service.ts:19 | `find({})`: one document per id in store order, entry `k` being the document under `order[k]` |
| ProductStore.ProductService.GetProducts | src/modules/product/product.service.ts:17-22 | the `Tables.Page` of the service's own listing: fails exactly when the skip is negative, every entry is a stored product, and a page holds at most `|pageSize|` entries |
| ProductStore.ProductService.GetDiscount | src/modules/product/product.service.ts:65-106 | `ResolveDiscount` over the service's own products and its category service's categories: fails with `ProductNotFound` exactly when no stored product has the code (`!CodeTaken`), and every quote has `amountAfterDiscount == amount - discount` |
| ProductStore.ProductService.GetProductById | src/modules/product/product.service.ts:24-34 | returns the stored document exactly when the id is present, otherwise fails with `ProductNotFound` |
| ProductStore.ProductService.CreateProduct | src/modules/product/product.service.ts:36-46 | a taken code fails with `ProductDuplicateCode`; then an empty code or name fails with `ValidationFailed` (`product.model.ts:8,11`); it succeeds exactly when neither applies; failures leave the store unchanged; success adds exactly one document with the given code, name, parent and discount under a fresh id at the end of the order; codes stay unique |
| ProductStore.ProductService.UpdateProduct | src/modules/product/product.service.ts:48-63 | a taken code fails with `ProductDuplicateCode` whatever the id; then an unknown id fails with `ProductNotFound`; then a patched document with an empty code or name fails on `save` with `ValidationFailed`; failures leave the store unchanged; success overwrites the supplied fields of that one document only; codes stay unique |
| Scenarios.DuplicateCreateRejected | src/modules/product/product.service.spec.ts:84-103 | creating the same body twice: the first succeeds, the second fails with `ProductDuplicateCode`, and the store holds one product |
| Scenarios.UpdateWithOwnCodeRejected | src/modules/product/product.service.spec.ts:167-182 | updating a product with its own code fails with `ProductDuplicateCode` and leaves the product unchanged |
| Scenarios.UpdateUnknownId | src/modules/product/product.service.spec.ts:184-188 | an unknown id with a fresh code fails with `ProductNotFound`; with a taken code it fails with `ProductDuplicateCode` |
| Scenarios.SelfParentAccepted | src/modules/category/category.service.ts:39-48 | making a category its own parent succeeds, so the stored parent graph may have cycles |
| Scenarios.EmptyCategoryNameRejected | src/modules/category/category.service.ts:32-49 | a create and an update carrying an empty name both fail with `ValidationFailed`, and the store keeps only the valid category |
| Scenarios.EmptyProductCodeRejected | src/modules/product/product.service.ts:48-63 | an update to the empty code passes the duplicate check, fails on `save` with `ValidationFailed`, and leaves the product unchanged |
| Scenarios.OwnDiscountQuote | src/modules/product/product.service.ts:100-103 | own discount 5 and amount 1000 give the quote (5, 995) |
| Scenarios.FallbackAsksAboutJoinedParent | src/modules/product/product.service.ts:98 | a product without a discount attached to `child` (discount 30, parent `root`) gets `findDiscount(root)`, not `child`'s discount |

## Left out

- The body of `categoryService.findDiscount` is not part of this model: it is a function parameter with no contract.
- Updates and quotes without a `code`: the database's handling of `exists({ code: undefined })` and `findOne({ code, name: undefined })` is not modelled; `Patch.code` is required and the quote filters by code alone, as the product controller calls it.
- The race between the existence check and the insert or save: the model is sequential, and code uniqueness is proved only for one-at-a-time calls.
- JavaScript numbers: `amount` and every discount are integers; NaN, fractions and rounding are not modelled.
- Id casting: a `findById` on a malformed id (for example a number from the category controller) raises a cast error in Mongoose; ids here are opaque naturals.
- An explicit null for a category's `discount`, in a create or an update body, is not modelled: the schema default 0 applies only to an omitted key, a null would be stored as null, and here every stored category discount is a number (`CreateBody.discount == None` is an omitted key).
- Schema validation is modelled for empty strings only: a required `name` or `code` set to null or left undefined cannot be written in a patch or body, and schema type casting (a number given for a string) is not modelled.
- The default arguments `page = 1`, `pageSize = 10` are not modelled; both callers always supply the two numbers.
- The order of unsorted `find` and `aggregate` results is taken to be insertion order.
- Returned values: create and update return the stored record (with its id for create), not a Mongoose document.
- Logging, `console.log`, authentication, controllers, modules, DTO validation decorators and HTTP.
- The category unit tests for `deleteCategory` and for duplicate or invalid-parent conflicts target another storage revision; the modelled service has no such behaviour.
