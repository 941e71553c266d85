/** Client runs of the two services, each proved from the services'
    contracts alone: the situations the services' unit tests set up, and the
    consequences of the update order and of the join. */
module Scenarios {
  import opened Common
  import CategoryStore
  import ProductStore

  /** Creating two products with the same code: the second is refused and
      only the first is stored. */
  method DuplicateCreateRejected() returns (first: Result<(Id, ProductStore.Product), Error>,
                                            second: Result<(Id, ProductStore.Product), Error>,
                                            stored: seq<ProductStore.Product>)
    ensures first.Success? && second == Failure(ProductDuplicateCode)
    ensures stored == [ProductStore.Product("product code", "product name", None, Some(5))]
  {
    var categories := new CategoryStore.CategoryService();
    var products := new ProductStore.ProductService(categories);
    var body := ProductStore.CreateBody("product code", "product name", None, Some(5));
    first := products.CreateProduct(body);
    second := products.CreateProduct(body);
    stored := products.Products();
  }

  /** Updating a product with the code it already holds is refused as a
      duplicate, and the product is left as it was. */
  method UpdateWithOwnCodeRejected() returns (r: Result<ProductStore.Product, Error>,
                                              after: Result<ProductStore.Product, Error>)
    ensures r == Failure(ProductDuplicateCode)
    ensures after == Success(ProductStore.Product("product code", "product name", None, Some(5)))
  {
    var categories := new CategoryStore.CategoryService();
    var products := new ProductStore.ProductService(categories);
    var created := products.CreateProduct(ProductStore.CreateBody("product code", "product name", None, Some(5)));
    var id := created.value.0;
    r := products.UpdateProduct(id, ProductStore.Patch("product code", None, None, None));
    after := products.GetProductById(id);
  }

  /** Updating an unknown id with a fresh code fails with `ProductNotFound`;
      with a taken code it fails with `ProductDuplicateCode` instead. */
  method UpdateUnknownId() returns (freshCode: Result<ProductStore.Product, Error>,
                                    taken: Result<ProductStore.Product, Error>)
    ensures freshCode == Failure(ProductNotFound)
    ensures taken == Failure(ProductDuplicateCode)
  {
    var categories := new CategoryStore.CategoryService();
    var products := new ProductStore.ProductService(categories);
    var created := products.CreateProduct(ProductStore.CreateBody("code", "name", None, None));
    var unknown := created.value.0 + 1;
    freshCode := products.UpdateProduct(unknown, ProductStore.Patch("new code", None, None, None));
    taken := products.UpdateProduct(unknown, ProductStore.Patch("code", None, None, None));
  }

  /** A category may be made its own parent: the update is accepted. */
  method SelfParentAccepted() returns (id: Id, r: Result<CategoryStore.Category, Error>)
    ensures r == Success(CategoryStore.Category("loop", Some(id), 0))
  {
    var categories := new CategoryStore.CategoryService();
    var created := categories.CreateCategory(CategoryStore.CreateBody("loop", None, None));
    id := created.value.0;
    r := categories.UpdateCategory(id, CategoryStore.Patch(None, Some(Some(id)), None));
  }

  /** The schema refuses an empty name: a create carrying one stores nothing,
      and an update setting one leaves the stored category as it was. */
  method EmptyCategoryNameRejected() returns (create: Result<(Id, CategoryStore.Category), Error>,
                                              update: Result<CategoryStore.Category, Error>,
                                              stored: seq<CategoryStore.Category>)
    ensures create == Failure(ValidationFailed) && update == Failure(ValidationFailed)
    ensures stored == [CategoryStore.Category("name", None, 0)]
  {
    var categories := new CategoryStore.CategoryService();
    create := categories.CreateCategory(CategoryStore.CreateBody("", None, None));
    var created := categories.CreateCategory(CategoryStore.CreateBody("name", None, None));
    update := categories.UpdateCategory(created.value.0, CategoryStore.Patch(Some(""), None, None));
    stored := categories.Categories();
  }

  /** An empty product code is free (no stored product has it), so the
      duplicate check lets it through and the schema refuses it on `save`. */
  method EmptyProductCodeRejected() returns (r: Result<ProductStore.Product, Error>,
                                             after: Result<ProductStore.Product, Error>)
    ensures r == Failure(ValidationFailed)
    ensures after == Success(ProductStore.Product("code", "name", None, None))
  {
    var categories := new CategoryStore.CategoryService();
    var products := new ProductStore.ProductService(categories);
    var created := products.CreateProduct(ProductStore.CreateBody("code", "name", None, None));
    var id := created.value.0;
    r := products.UpdateProduct(id, ProductStore.Patch("", None, None, None));
    after := products.GetProductById(id);
  }

  /** A product with its own discount of 5 and an amount of 1000: the
      discount is 5 and the amount after discount is 995 (a subtraction, not
      a percentage). */
  method OwnDiscountQuote(findDiscount: Option<Id> -> int) returns (q: Result<ProductStore.Quote, Error>)
    ensures q == Success(ProductStore.Quote(5, 995))
  {
    var categories := new CategoryStore.CategoryService();
    var products := new ProductStore.ProductService(categories);
    var created := products.CreateProduct(ProductStore.CreateBody("p1", "p1", None, Some(5)));
    ProductStore.OwnDiscountWins(products.rows, products.order, categories.rows, 1000, findDiscount,
                                 created.value.0);
    q := products.GetDiscount("p1", 1000, findDiscount);
  }

  /** A category table holding `root` (discount 10) and its child `child`
      (discount 30). */
  method RootAndChild() returns (categories: CategoryStore.CategoryService, root: Id, child: Id)
    ensures categories.Valid() && child in categories.rows
    ensures categories.rows[child] == CategoryStore.Category("child", Some(root), 30)
  {
    categories := new CategoryStore.CategoryService();
    var createdRoot := categories.CreateCategory(CategoryStore.CreateBody("root", None, Some(10)));
    root := createdRoot.value.0;
    var createdChild := categories.CreateCategory(CategoryStore.CreateBody("child", Some(root), Some(30)));
    child := createdChild.value.0;
  }

  /** A product table over `categories` holding one product "p1" without a
      discount, attached to `child`. */
  method OneProductUnder(categories: CategoryStore.CategoryService, child: Id)
    returns (products: ProductStore.ProductService, p: Id)
    ensures products.Valid() && products.categoryService == categories
    ensures products.order == [p]
    ensures products.rows == map[p := ProductStore.Product("p1", "p1", Some(child), None)]
  {
    products := new ProductStore.ProductService(categories);
    var created := products.CreateProduct(ProductStore.CreateBody("p1", "p1", Some(child), None));
    p := created.value.0;
  }

  /** A product without a discount attached to `child`: the quote ignores the
      discount stored on `child` and is whatever the ancestor walk answers
      for `root`, the parent of the joined category. */
  method FallbackAsksAboutJoinedParent(findDiscount: Option<Id> -> int)
    returns (root: Id, q: Result<ProductStore.Quote, Error>)
    ensures var d := findDiscount(Some(root)); q == Success(ProductStore.Quote(d, 1000 - d))
  {
    var categories, child;
    categories, root, child := RootAndChild();
    var products, p := OneProductUnder(categories, child);
    ProductStore.FallbackUsesFirstJoined(products.rows, products.order, categories.rows, 1000,
                                         findDiscount, p, 0);
    q := products.GetDiscount("p1", 1000, findDiscount);
  }
}
