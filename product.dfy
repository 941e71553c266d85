/** The product service: a table of products with a duplicate-code check on
    create and update, lookup by id, pagination, and the discount quote,
    which reads the category table through a join. */
module ProductStore {
  import opened Common
  import Tables
  import CategoryStore

  type Category = CategoryStore.Category

  /** A stored product; `parent` and `discount` have no schema default, so
      either may be absent. */
  datatype Product = Product(code: string, name: string, parent: Option<Id>, discount: Option<int>)

  /** The body of a create request; `None` marks a key the body omits. */
  datatype CreateBody = CreateBody(code: string, name: string, parent: Option<Id>, discount: Option<int>)

  /** The body of a partial update.  The code is always supplied; for the
      other keys `None` marks an omission and `Some(None)` an explicit null. */
  datatype Patch = Patch(code: string, name: Option<string>, parent: Option<Option<Id>>,
                         discount: Option<Option<int>>)

  /** The answer of a discount request. */
  datatype Quote = Quote(discount: int, amountAfterDiscount: int)

  /** One output row of the `$lookup`/`$unwind` aggregate: a product and the
      category its `parent` names. */
  datatype JoinedRow = JoinedRow(product: Id, category: Category)

  /** The document `create(body)` stores. */
  function NewProduct(body: CreateBody): (p: Product) {
    Product(body.code, body.name, body.parent, body.discount)
  }

  /** The document after `product.set(patch)`. */
  function Patched(p: Product, patch: Patch): (q: Product) {
    Product(patch.code, Overwrite(p.name, patch.name), Overwrite(p.parent, patch.parent),
            Overwrite(p.discount, patch.discount))
  }

  /** An update overwrites exactly the supplied fields: the code always, the
      other fields when the patch carries them; applying it twice is the same
      as applying it once. */
  lemma PatchOverwritesSuppliedFields(p: Product, patch: Patch)
    ensures Patched(Patched(p, patch), patch) == Patched(p, patch)
    ensures Patched(p, patch).code == patch.code
    ensures patch.name.None? ==> Patched(p, patch).name == p.name
    ensures patch.name.Some? ==> Patched(p, patch).name == patch.name.value
    ensures patch.parent.None? ==> Patched(p, patch).parent == p.parent
    ensures patch.parent.Some? ==> Patched(p, patch).parent == patch.parent.value
    ensures patch.discount.None? ==> Patched(p, patch).discount == p.discount
    ensures patch.discount.Some? ==> Patched(p, patch).discount == patch.discount.value
  {
  }

  /** The schema's `required: true` on `code` and `name`: both must be
      non-empty strings for `create` or `save` to store the document. */
  predicate Storable(p: Product) {
    p.code != "" && p.name != ""
  }

  /** Some stored product has this code (`exists({ code })`). */
  ghost predicate CodeTaken(rows: map<Id, Product>, code: string) {
    exists id | id in rows :: rows[id].code == code
  }

  /** No two stored products share a code. */
  ghost predicate UniqueCodes(rows: map<Id, Product>) {
    forall a, b | a in rows && b in rows && rows[a].code == rows[b].code :: a == b
  }

  /** The position in natural order of the first product with this code
      (`findOne({ code })`). */
  function FindOne(rows: map<Id, Product>, order: seq<Id>, code: string): (r: Option<nat>)
    requires forall id | id in order :: id in rows
    ensures r.None? <==> forall k | 0 <= k < |order| :: rows[order[k]].code != code
    ensures r.Some? ==> r.value < |order| && rows[order[r.value]].code == code
    ensures r.Some? ==> forall j | 0 <= j < r.value :: rows[order[j]].code != code
  {
    if order == [] then None
    else if rows[order[0]].code == code then Some(0)
    else match FindOne(rows, order[1..], code)
      case None => None
      case Some(k) => Some(k + 1)
  }

  /** On an indexed table the search succeeds exactly when the code is taken. */
  lemma FindOneMatchesCodeTaken(rows: map<Id, Product>, order: seq<Id>, code: string)
    requires Tables.Indexed(rows, order)
    ensures FindOne(rows, order, code).Some? <==> CodeTaken(rows, code)
  {
    if CodeTaken(rows, code) {
      var id :| id in rows && rows[id].code == code;
      assert id in order;
      var k :| 0 <= k < |order| && order[k] == id;
    }
  }

  /** With unique codes the search finds the one product holding the code. */
  lemma FindOneFindsHolder(rows: map<Id, Product>, order: seq<Id>, id: Id)
    requires Tables.Indexed(rows, order) && UniqueCodes(rows) && id in rows
    ensures var r := FindOne(rows, order, rows[id].code); r.Some? && order[r.value] == id
  {
    FindOneMatchesCodeTaken(rows, order, rows[id].code);
  }

  /** Inserting a product whose code is not taken keeps codes unique. */
  lemma InsertKeepsCodesUnique(rows: map<Id, Product>, id: Id, p: Product)
    requires UniqueCodes(rows) && !CodeTaken(rows, p.code) && id !in rows
    ensures UniqueCodes(rows[id := p])
    ensures CodeTaken(rows[id := p], p.code)
  {
    assert rows[id := p][id].code == p.code;
  }

  /** Overwriting a stored product with one whose code is not taken keeps
      codes unique. */
  lemma OverwriteKeepsCodesUnique(rows: map<Id, Product>, id: Id, p: Product)
    requires UniqueCodes(rows) && !CodeTaken(rows, p.code) && id in rows
    ensures UniqueCodes(rows[id := p])
  {
  }

  /** The product's parent names a stored category, so `$unwind` keeps it. */
  predicate Resolves(p: Product, categories: map<Id, Category>) {
    p.parent.Some? && p.parent.value in categories
  }

  /** The aggregate `[$lookup categories on parent = _id, $unwind category]`
      over the whole product collection, in natural order. */
  function Joined(rows: map<Id, Product>, order: seq<Id>, categories: map<Id, Category>): (r: seq<JoinedRow>)
    requires forall id | id in order :: id in rows
    ensures |r| <= |order|
    ensures forall row | row in r ::
      && row.product in order
      && Resolves(rows[row.product], categories)
      && row.category == categories[rows[row.product].parent.value]
    ensures forall k | 0 <= k < |order| && Resolves(rows[order[k]], categories) ::
      JoinedRow(order[k], categories[rows[order[k]].parent.value]) in r
    ensures (forall a, b | 0 <= a < b < |order| :: order[a] != order[b]) ==>
      forall i, j | 0 <= i < j < |r| :: r[i].product != r[j].product
  {
    if order == [] then []
    else
      var p, rest := rows[order[0]], Joined(rows, order[1..], categories);
      if Resolves(p, categories) then [JoinedRow(order[0], categories[p.parent.value])] + rest
      else rest
  }

  /** The first row of the aggregate comes from the first product in natural
      order whose parent names a stored category. */
  lemma {:induction false} JoinedHead(rows: map<Id, Product>, order: seq<Id>,
                                      categories: map<Id, Category>, k: nat)
    requires forall id | id in order :: id in rows
    requires k < |order| && Resolves(rows[order[k]], categories)
    requires forall j | 0 <= j < k :: !Resolves(rows[order[j]], categories)
    ensures Joined(rows, order, categories) != []
    ensures Joined(rows, order, categories)[0] ==
            JoinedRow(order[k], categories[rows[order[k]].parent.value])
  {
    if k > 0 {
      assert !Resolves(rows[order[0]], categories);
      forall j | 0 <= j < k - 1 ensures !Resolves(rows[order[1..][j]], categories) {
        assert order[1..][j] == order[j + 1];
      }
      JoinedHead(rows, order[1..], categories, k - 1);
    }
  }

  /** The aggregate is empty exactly when no product's parent names a stored
      category. */
  lemma {:induction false} JoinedEmpty(rows: map<Id, Product>, order: seq<Id>,
                                       categories: map<Id, Category>)
    requires forall id | id in order :: id in rows
    ensures Joined(rows, order, categories) == [] <==>
            forall k | 0 <= k < |order| :: !Resolves(rows[order[k]], categories)
  {
    if order != [] {
      JoinedEmpty(rows, order[1..], categories);
      assert forall k | 1 <= k < |order| :: order[k] == order[1..][k - 1];
    }
  }

  /** A discount is used as is when it is truthy: present and non-zero. */
  predicate Truthy(d: Option<int>) {
    d.Some? && d.value != 0
  }

  /** `getDiscount({ code, amount })`: find the product by code; use its own
      discount when truthy, otherwise take the first row of the aggregate and
      ask `findDiscount` about that category's parent; the amount after
      discount is the amount minus the discount.  `findDiscount` stands for
      the category service's ancestor walk, whose body is not modelled. */
  function ResolveDiscount(rows: map<Id, Product>, order: seq<Id>, categories: map<Id, Category>,
                           code: string, amount: int, findDiscount: Option<Id> -> int): (r: Result<Quote, Error>)
    requires forall id | id in order :: id in rows
    ensures r == Failure(ProductNotFound) <==> forall k | 0 <= k < |order| :: rows[order[k]].code != code
    ensures r.Failure? ==> r.error in {ProductNotFound, NoJoinedCategory}
    ensures r == Failure(NoJoinedCategory) ==> Joined(rows, order, categories) == []
    ensures r.Success? ==> r.value.amountAfterDiscount == amount - r.value.discount
  {
    match FindOne(rows, order, code)
    case None => Failure(ProductNotFound)
    case Some(k) =>
      var own := rows[order[k]].discount;
      if Truthy(own) then Success(Quote(own.value, amount - own.value))
      else
        var data := Joined(rows, order, categories);
        if data == [] then Failure(NoJoinedCategory)
        else
          var discount := findDiscount(data[0].category.parent);
          Success(Quote(discount, amount - discount))
  }

  /** A product with a truthy discount gets exactly that discount, whatever
      the category table and the ancestor walk are. */
  lemma OwnDiscountWins(rows: map<Id, Product>, order: seq<Id>, categories: map<Id, Category>,
                        amount: int, findDiscount: Option<Id> -> int, id: Id)
    requires Tables.Indexed(rows, order) && UniqueCodes(rows)
    requires id in rows && Truthy(rows[id].discount)
    ensures var d := rows[id].discount.value;
      ResolveDiscount(rows, order, categories, rows[id].code, amount, findDiscount) ==
      Success(Quote(d, amount - d))
  {
    FindOneFindsHolder(rows, order, id);
  }

  /** A product whose own discount is 0 or absent gets `findDiscount` of the
      parent of the category joined to the first product in natural order
      whose parent names a stored category, whichever product that is. */
  lemma FallbackUsesFirstJoined(rows: map<Id, Product>, order: seq<Id>, categories: map<Id, Category>,
                                amount: int, findDiscount: Option<Id> -> int, id: Id, k: nat)
    requires Tables.Indexed(rows, order) && UniqueCodes(rows)
    requires id in rows && !Truthy(rows[id].discount)
    requires k < |order| && Resolves(rows[order[k]], categories)
    requires forall j | 0 <= j < k :: !Resolves(rows[order[j]], categories)
    ensures var d := findDiscount(categories[rows[order[k]].parent.value].parent);
      ResolveDiscount(rows, order, categories, rows[id].code, amount, findDiscount) ==
      Success(Quote(d, amount - d))
  {
    FindOneFindsHolder(rows, order, id);
    JoinedHead(rows, order, categories, k);
  }

  /** A product whose own discount is 0 or absent fails when no product's
      parent names a stored category (`data[0]` is undefined). */
  lemma FallbackFailsWithoutJoin(rows: map<Id, Product>, order: seq<Id>, categories: map<Id, Category>,
                                 amount: int, findDiscount: Option<Id> -> int, id: Id)
    requires Tables.Indexed(rows, order) && UniqueCodes(rows)
    requires id in rows && !Truthy(rows[id].discount)
    requires forall k | 0 <= k < |order| :: !Resolves(rows[order[k]], categories)
    ensures ResolveDiscount(rows, order, categories, rows[id].code, amount, findDiscount) ==
            Failure(NoJoinedCategory)
  {
    FindOneFindsHolder(rows, order, id);
    JoinedEmpty(rows, order, categories);
  }

  /** The fallback does not depend on which product was asked about: any two
      products without a truthy discount get the same quote. */
  lemma FallbackIgnoresRequestedProduct(rows: map<Id, Product>, order: seq<Id>,
                                        categories: map<Id, Category>, amount: int,
                                        findDiscount: Option<Id> -> int, a: Id, b: Id)
    requires Tables.Indexed(rows, order) && UniqueCodes(rows)
    requires a in rows && !Truthy(rows[a].discount)
    requires b in rows && !Truthy(rows[b].discount)
    ensures ResolveDiscount(rows, order, categories, rows[a].code, amount, findDiscount) ==
            ResolveDiscount(rows, order, categories, rows[b].code, amount, findDiscount)
  {
    FindOneFindsHolder(rows, order, a);
    FindOneFindsHolder(rows, order, b);
  }

  class ProductService {
    /** The products collection: documents by id, ids in natural order. */
    var rows: map<Id, Product>
    var order: seq<Id>
    var nextId: Id
    /** The category service the discount quote reads. */
    const categoryService: CategoryStore.CategoryService

    /** The table invariant, unique codes, and every stored document passes
        the schema. */
    ghost predicate Valid()
      reads this
    {
      && Tables.WellFormed(rows, order, nextId)
      && UniqueCodes(rows)
      && (forall id | id in rows :: Storable(rows[id]))
    }

    constructor (categoryService: CategoryStore.CategoryService)
      ensures Valid()
      ensures rows == map[] && order == [] && this.categoryService == categoryService
    {
      rows, order, nextId := map[], [], 0;
      this.categoryService := categoryService;
    }

    /** The documents in natural order. */
    function Products(): (r: seq<Product>)
      reads this
      requires Valid()
      ensures |r| == |order| && forall k | 0 <= k < |order| :: r[k] == rows[order[k]]
    {
      Tables.Listing(rows, order)
    }

    /** `getProducts(page, pageSize)`: the page of the listing, so every
        entry is a stored document and a page holds at most `|pageSize|`. */
    function GetProducts(page: int, pageSize: int): (r: Result<seq<Product>, Error>)
      reads this
      requires Valid()
      ensures r == Tables.Page(Products(), page, pageSize)
      ensures r.Failure? <==> (page - 1) * pageSize < 0
      ensures r.Success? ==> forall i | 0 <= i < |r.value| :: r.value[i] in rows.Values
      ensures r.Success? && pageSize != 0 ==> |r.value| <= Tables.Abs(pageSize)
    {
      Tables.PageFromTable(rows, order, page, pageSize);
      Tables.Page(Products(), page, pageSize)
    }

    /** `getProductById(id)`: the stored document, or `ProductNotFound` when
        no document has that id. */
    function GetProductById(id: Id): (r: Result<Product, Error>)
      reads this
      ensures r.Success? <==> id in rows
      ensures r.Success? ==> r.value == rows[id]
      ensures r.Failure? ==> r.error == ProductNotFound
    {
      if id in rows then Success(rows[id]) else Failure(ProductNotFound)
    }

    /** `getDiscount({ code, amount })` against the current product and
        category tables. */
    function GetDiscount(code: string, amount: int, findDiscount: Option<Id> -> int): (r: Result<Quote, Error>)
      reads this, categoryService
      requires Valid()
      ensures r == ResolveDiscount(rows, order, categoryService.rows, code, amount, findDiscount)
      ensures r == Failure(ProductNotFound) <==> !CodeTaken(rows, code)
      ensures r.Success? ==> r.value.amountAfterDiscount == amount - r.value.discount
    {
      FindOneMatchesCodeTaken(rows, order, code);
      ResolveDiscount(rows, order, categoryService.rows, code, amount, findDiscount)
    }

    /** `createProduct(body)`: a taken code fails with `ProductDuplicateCode`
        and changes nothing; then a document with an empty code or name fails
        the schema with `ValidationFailed` and changes nothing; otherwise one
        new document is stored under a fresh id and returned. */
    method CreateProduct(body: CreateBody) returns (r: Result<(Id, Product), Error>)
      requires Valid()
      modifies this
      ensures Valid()
      ensures CodeTaken(old(rows), body.code) ==> r == Failure(ProductDuplicateCode)
      ensures !CodeTaken(old(rows), body.code) && !Storable(NewProduct(body)) ==> r == Failure(ValidationFailed)
      ensures r.Success? <==> !CodeTaken(old(rows), body.code) && Storable(NewProduct(body))
      ensures r.Failure? ==> rows == old(rows) && order == old(order) && nextId == old(nextId)
      ensures r.Success? ==> r.value.0 !in old(rows) && r.value.1 == NewProduct(body)
      ensures r.Success? ==> rows == old(rows)[r.value.0 := r.value.1] && order == old(order) + [r.value.0]
      ensures r.Success? ==> Products() == old(Products()) + [r.value.1]
      ensures r.Success? ==> GetProductById(r.value.0) == Success(r.value.1)
    {
      FindOneMatchesCodeTaken(rows, order, body.code);
      if FindOne(rows, order, body.code).Some? {
        return Failure(ProductDuplicateCode);
      }
      var id, p := nextId, NewProduct(body);
      if !Storable(p) {
        return Failure(ValidationFailed);
      }
      Tables.ListingAppend(rows, order, id, p);
      InsertKeepsCodesUnique(rows, id, p);
      rows, order, nextId := rows[id := p], order + [id], nextId + 1;
      r := Success((id, p));
    }

    /** `updateProduct(id, patch)`: the code check comes first, so a taken
        code fails with `ProductDuplicateCode` even for an unknown id; its
        filter `exists({ code })` does not exclude the updated product's own
        id, so it fails too when that product holds the code; then an unknown
        id fails with `ProductNotFound`; then a patched document with an empty
        code or name fails the schema on `save` with `ValidationFailed`;
        otherwise the supplied fields are overwritten and the document
        returned. */
    method UpdateProduct(id: Id, patch: Patch) returns (r: Result<Product, Error>)
      requires Valid()
      modifies this
      ensures Valid()
      ensures CodeTaken(old(rows), patch.code) ==> r == Failure(ProductDuplicateCode)
      ensures !CodeTaken(old(rows), patch.code) && id !in old(rows) ==> r == Failure(ProductNotFound)
      ensures !CodeTaken(old(rows), patch.code) && id in old(rows) && !Storable(Patched(old(rows)[id], patch)) ==>
              r == Failure(ValidationFailed)
      ensures r.Success? <==>
              !CodeTaken(old(rows), patch.code) && id in old(rows) && Storable(Patched(old(rows)[id], patch))
      ensures r.Failure? ==> rows == old(rows)
      ensures r.Success? ==> r.value == Patched(old(rows)[id], patch) && rows == old(rows)[id := r.value]
      ensures r.Success? ==> GetProductById(id) == r
      ensures order == old(order) && nextId == old(nextId)
      ensures r.Success? ==> Products() == old(Products())[Tables.Position(order, id) := r.value]
    {
      FindOneMatchesCodeTaken(rows, order, patch.code);
      if FindOne(rows, order, patch.code).Some? {
        return Failure(ProductDuplicateCode);
      }
      if id !in rows {
        return Failure(ProductNotFound);
      }
      var updated := Patched(rows[id], patch);
      if !Storable(updated) {
        return Failure(ValidationFailed);
      }
      Tables.ListingOverwrite(rows, order, id, updated);
      OverwriteKeepsCodesUnique(rows, id, updated);
      rows := rows[id := updated];
      r := Success(updated);
    }
  }
}
