/** A MongoDB collection seen as a keyed table: the documents by id, the ids
    in natural (insertion) order, and the next id the store hands out.
    Both services keep one such table; this module holds what they share:
    the well-formedness invariant, the ordered listing that `find({})`
    returns, and the `skip`/`limit` pagination. */
module Tables {
  import opened Common

  /** Every stored id appears exactly once in the order, and nothing else does. */
  ghost predicate Indexed<T>(rows: map<Id, T>, order: seq<Id>) {
    && (forall id :: id in rows <==> id in order)
    && (forall i, j | 0 <= i < j < |order| :: order[i] != order[j])
  }

  /** The table invariant: indexed, and every id is below the next one to hand out. */
  ghost predicate WellFormed<T>(rows: map<Id, T>, order: seq<Id>, nextId: Id) {
    && Indexed(rows, order)
    && (forall id | id in rows :: id < nextId)
  }

  /** The documents in natural order, as `find({})` yields them. */
  function Listing<T>(rows: map<Id, T>, order: seq<Id>): (r: seq<T>)
    requires forall id | id in order :: id in rows
    ensures |r| == |order|
    ensures forall k | 0 <= k < |order| :: r[k] == rows[order[k]]
  {
    if order == [] then [] else [rows[order[0]]] + Listing(rows, order[1..])
  }

  /** Inserting a fresh id at the end of the order appends its document to the listing. */
  lemma ListingAppend<T>(rows: map<Id, T>, order: seq<Id>, id: Id, v: T)
    requires forall x | x in order :: x in rows
    requires id !in order
    ensures Listing(rows[id := v], order + [id]) == Listing(rows, order) + [v]
  {
    var after, before := Listing(rows[id := v], order + [id]), Listing(rows, order);
    assert |after| == |before + [v]|;
    forall k | 0 <= k < |after| ensures after[k] == (before + [v])[k] {
      if k < |order| {
        assert (order + [id])[k] == order[k] != id;
      }
    }
  }

  /** The position of an id in the order. */
  function Position(order: seq<Id>, id: Id): (k: nat)
    requires id in order
    ensures k < |order| && order[k] == id
  {
    if order[0] == id then 0 else 1 + Position(order[1..], id)
  }

  /** Overwriting the document stored under `id` changes the listing at the
      position of `id` only. */
  lemma ListingOverwrite<T>(rows: map<Id, T>, order: seq<Id>, id: Id, v: T)
    requires Indexed(rows, order)
    requires id in rows
    ensures Listing(rows[id := v], order) == Listing(rows, order)[Position(order, id) := v]
  {
    var k := Position(order, id);
    var after, before := Listing(rows[id := v], order), Listing(rows, order);
    forall i | 0 <= i < |order| ensures after[i] == before[k := v][i] {
      if i != k {
        assert order[i] != order[k];
      }
    }
  }

  function Abs(n: int): (r: nat)
    ensures r == n || r == -n
  {
    if n < 0 then -n else n
  }

  function Min(a: int, b: int): (r: int)
    ensures r <= a && r <= b && (r == a || r == b)
  {
    if a <= b then a else b
  }

  /** `find({}).skip((page - 1) * pageSize).limit(pageSize)` over a listing,
      with the database's reading of the two numbers: a negative skip is
      refused, a limit of 0 means no limit, and a negative limit returns as
      many documents as its absolute value. */
  function Page<T>(listing: seq<T>, page: int, pageSize: int): (r: Result<seq<T>, Error>)
    ensures r.Failure? <==> (page - 1) * pageSize < 0
    ensures r.Failure? ==> r.error == NegativeSkip
    ensures r.Success? ==>
      var skip := (page - 1) * pageSize;
      && (forall i | 0 <= i < |r.value| :: skip + i < |listing| && r.value[i] == listing[skip + i])
      && (pageSize != 0 ==> |r.value| == Min(Abs(pageSize), if skip < |listing| then |listing| - skip else 0))
      && (pageSize == 0 ==> r.value == listing)
  {
    var skip := (page - 1) * pageSize;
    if skip < 0 then Failure(NegativeSkip)
    else
      var rest := if skip < |listing| then listing[skip..] else [];
      var limit := Abs(pageSize);
      Success(if limit == 0 || |rest| <= limit then rest else rest[..limit])
  }

  /** For a page number of at least 1 and a positive page size, a page is the
      contiguous run of at most `pageSize` documents that starts at index
      `(page - 1) * pageSize`. */
  lemma PageIsSlice<T>(listing: seq<T>, page: int, pageSize: int)
    requires page >= 1 && pageSize >= 1
    ensures
      var skip := (page - 1) * pageSize;
      Page(listing, page, pageSize) ==
        Success(if skip < |listing| then listing[skip..Min(skip + pageSize, |listing|)] else [])
  {
    var skip := (page - 1) * pageSize;
    assert skip >= 0 by { NonNegativeProduct(page - 1, pageSize); }
    if skip < |listing| {
      var rest := listing[skip..];
      if pageSize < |rest| {
        assert rest[..pageSize] == listing[skip..skip + pageSize];
      } else {
        assert rest == listing[skip..|listing|];
      }
    }
  }

  /** Every entry of a page of a table's listing is a document of the table. */
  lemma PageFromTable<T>(rows: map<Id, T>, order: seq<Id>, page: int, pageSize: int)
    requires forall id | id in order :: id in rows
    ensures var r := Page(Listing(rows, order), page, pageSize);
      r.Success? ==> forall i | 0 <= i < |r.value| :: r.value[i] in rows.Values
  {
    var r := Page(Listing(rows, order), page, pageSize);
    if r.Success? {
      var skip := (page - 1) * pageSize;
      assert r.value != [] ==> skip + |r.value| <= |order| by {
        if r.value != [] {
          var last := |r.value| - 1;
          assert skip + last < |Listing(rows, order)|;
        }
      }
      EntriesFromTable(rows, order, r.value, skip);
    }
  }

  /** A run of listing entries starting at `skip` holds documents of the table. */
  lemma EntriesFromTable<T>(rows: map<Id, T>, order: seq<Id>, entries: seq<T>, skip: int)
    requires forall id | id in order :: id in rows
    requires skip >= 0 && (entries != [] ==> skip + |entries| <= |order|)
    requires forall i | 0 <= i < |entries| :: entries[i] == Listing(rows, order)[skip + i]
    ensures forall i | 0 <= i < |entries| :: entries[i] in rows.Values
  {
    forall i | 0 <= i < |entries| ensures entries[i] in rows.Values {
      assert entries[i] == Listing(rows, order)[skip + i];
      assert Listing(rows, order)[skip + i] == rows[order[skip + i]];
    }
  }

  lemma NonNegativeProduct(a: int, b: int)
    requires a >= 0 && b >= 0
    ensures a * b >= 0
  {
  }

  /** With a positive page size document `i` is entry `i % pageSize` of page
      `i / pageSize + 1`. */
  lemma EveryDocumentOnItsPage<T>(listing: seq<T>, pageSize: int, i: int)
    requires pageSize >= 1 && 0 <= i < |listing|
    ensures
      var r := Page(listing, i / pageSize + 1, pageSize);
      r.Success? && i % pageSize < |r.value| && r.value[i % pageSize] == listing[i]
  {
    var q, m := i / pageSize, i % pageSize;
    var skip := q * pageSize;
    assert skip + m == i && 0 <= m < pageSize;
    assert q + 1 - 1 == q;
    NonNegativeProduct(q, pageSize);
    var r := Page(listing, q + 1, pageSize);
    assert r.Success?;
    assert |r.value| == Min(pageSize, |listing| - skip);
    assert r.value[m] == listing[skip + m];
  }

  /** No document appears on two pages: with a positive page size, entry `j`
      of page `page` is document `i` for the one `i` whose page is
      `i / pageSize + 1` and whose place on it is `i % pageSize`. */
  lemma NoDocumentOnTwoPages<T>(listing: seq<T>, pageSize: int, page: int, j: int)
    requires pageSize >= 1 && page >= 1 && 0 <= j
    ensures var r := Page(listing, page, pageSize);
      j < |r.value| ==>
        var i := (page - 1) * pageSize + j;
        && i < |listing| && r.value[j] == listing[i]
        && page == i / pageSize + 1 && j == i % pageSize
  {
    var skip := (page - 1) * pageSize;
    NonNegativeProduct(page - 1, pageSize);
    var r := Page(listing, page, pageSize);
    if j < |r.value| {
      var i := skip + j;
      assert |r.value| <= pageSize;
      assert page * pageSize == skip + pageSize;
      OnlyOnePageHolds(pageSize, i, page);
      assert i / pageSize == page - 1;
      assert i == (i / pageSize) * pageSize + i % pageSize;
    }
  }

  /** The index range of page `page` holds `i` exactly when `page` is
      `i / pageSize + 1`. */
  lemma OnlyOnePageHolds(pageSize: int, i: int, page: int)
    requires pageSize >= 1 && 0 <= i && page >= 1
    ensures (page - 1) * pageSize <= i < page * pageSize <==> page == i / pageSize + 1
  {
    var q, m := i / pageSize, i % pageSize;
    var skip := q * pageSize;
    assert skip + m == i && 0 <= m < pageSize;
    if page - 1 < q {
      ProductMonotone(page, q, pageSize);
    } else if page - 1 > q {
      ProductMonotone(q + 1, page - 1, pageSize);
      assert (q + 1) * pageSize == skip + pageSize;
    } else {
      assert page * pageSize == skip + pageSize;
    }
  }

  lemma ProductMonotone(a: int, b: int, c: int)
    requires a <= b && c >= 1
    ensures a * c <= b * c
  {
    assert b * c - a * c == (b - a) * c;
    NonNegativeProduct(b - a, c);
  }
}
