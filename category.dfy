/** The category service: a table of categories with create, partial update,
    lookup by id and pagination.  Neither create nor update looks at the
    parent link, so the table holds any parent graph, self-loops and cycles
    included; nothing here assumes a forest. */
module CategoryStore {
  import opened Common
  import Tables

  /** A stored category.  `parent == None` is the stored null. */
  datatype Category = Category(name: string, parent: Option<Id>, discount: int)

  /** The body of a create request; `None` marks a key the body omits. */
  datatype CreateBody = CreateBody(name: string, parent: Option<Id>, discount: Option<int>)

  /** The body of a partial update; `None` marks a key the body omits, and
      `parent == Some(None)` is an explicit null. */
  datatype Patch = Patch(name: Option<string>, parent: Option<Option<Id>>, discount: Option<int>)

  /** The schema default of `discount`; the default of `parent` is null. */
  const DefaultDiscount: int := 0

  /** The document `create(body)` stores: the schema defaults fill the keys
      the body omits. */
  function NewCategory(body: CreateBody): (c: Category) {
    Category(body.name, body.parent, body.discount.GetOr(DefaultDiscount))
  }

  /** The document after `category.set(patch)`. */
  function Patched(c: Category, patch: Patch): (d: Category) {
    Category(Overwrite(c.name, patch.name), Overwrite(c.parent, patch.parent),
             Overwrite(c.discount, patch.discount))
  }

  /** A created category carries the given fields; an omitted parent is null
      and an omitted discount is 0. */
  lemma NewCategoryDefaults(body: CreateBody)
    ensures NewCategory(body).name == body.name
    ensures NewCategory(body).parent == body.parent
    ensures NewCategory(body).discount == if body.discount.Some? then body.discount.value else 0
  {
  }

  /** An update overwrites exactly the supplied fields: applying the same
      patch again changes nothing, a patch with no keys changes nothing, and
      the fields the patch omits keep their stored values. */
  lemma PatchOverwritesSuppliedFields(c: Category, patch: Patch)
    ensures Patched(Patched(c, patch), patch) == Patched(c, patch)
    ensures Patched(c, Patch(None, None, None)) == c
    ensures patch.name.None? ==> Patched(c, patch).name == c.name
    ensures patch.name.Some? ==> Patched(c, patch).name == patch.name.value
    ensures patch.parent.None? ==> Patched(c, patch).parent == c.parent
    ensures patch.parent.Some? ==> Patched(c, patch).parent == patch.parent.value
    ensures patch.discount.None? ==> Patched(c, patch).discount == c.discount
    ensures patch.discount.Some? ==> Patched(c, patch).discount == patch.discount.value
  {
  }

  /** The schema's `required: true` on `name`: a string field must be
      non-empty for `create` or `save` to store the document. */
  predicate Storable(c: Category) {
    c.name != ""
  }

  class CategoryService {
    /** The categories collection: documents by id, ids in natural order. */
    var rows: map<Id, Category>
    var order: seq<Id>
    var nextId: Id

    /** The table invariant, and every stored document passes the schema. */
    ghost predicate Valid()
      reads this
    {
      && Tables.WellFormed(rows, order, nextId)
      && (forall id | id in rows :: Storable(rows[id]))
    }

    constructor ()
      ensures Valid()
      ensures rows == map[] && order == []
    {
      rows, order, nextId := map[], [], 0;
    }

    /** The documents in natural order. */
    function Categories(): (r: seq<Category>)
      reads this
      requires Valid()
      ensures |r| == |order| && forall k | 0 <= k < |order| :: r[k] == rows[order[k]]
    {
      Tables.Listing(rows, order)
    }

    /** `getCategories(page, pageSize)`: the page of the listing, so every
        entry is a stored document and a page holds at most `|pageSize|`. */
    function GetCategories(page: int, pageSize: int): (r: Result<seq<Category>, Error>)
      reads this
      requires Valid()
      ensures r == Tables.Page(Categories(), page, pageSize)
      ensures r.Failure? <==> (page - 1) * pageSize < 0
      ensures r.Success? ==> forall i | 0 <= i < |r.value| :: r.value[i] in rows.Values
      ensures r.Success? && pageSize != 0 ==> |r.value| <= Tables.Abs(pageSize)
    {
      Tables.PageFromTable(rows, order, page, pageSize);
      Tables.Page(Categories(), page, pageSize)
    }

    /** `getCategoryById(id)`: the stored document, or `CategoryNotFound`
        when no document has that id. */
    function GetCategoryById(id: Id): (r: Result<Category, Error>)
      reads this
      ensures r.Success? <==> id in rows
      ensures r.Success? ==> r.value == rows[id]
      ensures r.Failure? ==> r.error == CategoryNotFound
    {
      if id in rows then Success(rows[id]) else Failure(CategoryNotFound)
    }

    /** `createCategory(body)`: a document whose name is empty fails the
        schema with `ValidationFailed` and nothing is stored; otherwise one new
        document is stored under a fresh id and returned. */
    method CreateCategory(body: CreateBody) returns (r: Result<(Id, Category), Error>)
      requires Valid()
      modifies this
      ensures Valid()
      ensures r.Failure? <==> !Storable(NewCategory(body))
      ensures r.Failure? ==> r.error == ValidationFailed
      ensures r.Failure? ==> rows == old(rows) && order == old(order) && nextId == old(nextId)
      ensures r.Success? ==> r.value.0 !in old(rows) && r.value.1 == NewCategory(body)
      ensures r.Success? ==> rows == old(rows)[r.value.0 := r.value.1] && order == old(order) + [r.value.0]
      ensures r.Success? ==> Categories() == old(Categories()) + [r.value.1]
      ensures r.Success? ==> GetCategoryById(r.value.0) == Success(r.value.1)
    {
      var c := NewCategory(body);
      if !Storable(c) {
        return Failure(ValidationFailed);
      }
      var id := nextId;
      Tables.ListingAppend(rows, order, id, c);
      rows, order, nextId := rows[id := c], order + [id], nextId + 1;
      r := Success((id, c));
    }

    /** `updateCategory(id, patch)`: an unknown id fails with
        `CategoryNotFound`; a patched document whose name is empty fails the
        schema on `save` with `ValidationFailed`; otherwise the document is
        overwritten with the supplied fields and returned.  The parent link is
        not checked. */
    method UpdateCategory(id: Id, patch: Patch) returns (r: Result<Category, Error>)
      requires Valid()
      modifies this
      ensures Valid()
      ensures id !in old(rows) ==> r == Failure(CategoryNotFound)
      ensures id in old(rows) && !Storable(Patched(old(rows)[id], patch)) ==> r == Failure(ValidationFailed)
      ensures r.Success? <==> id in old(rows) && Storable(Patched(old(rows)[id], patch))
      ensures r.Failure? ==> rows == old(rows)
      ensures r.Success? ==> r.value == Patched(old(rows)[id], patch) && rows == old(rows)[id := r.value]
      ensures r.Success? ==> GetCategoryById(id) == r
      ensures order == old(order) && nextId == old(nextId)
      ensures r.Success? ==> Categories() == old(Categories())[Tables.Position(order, id) := r.value]
    {
      if id !in rows {
        return Failure(CategoryNotFound);
      }
      var updated := Patched(rows[id], patch);
      if !Storable(updated) {
        return Failure(ValidationFailed);
      }
      Tables.ListingOverwrite(rows, order, id, updated);
      rows := rows[id := updated];
      r := Success(updated);
    }
  }
}
