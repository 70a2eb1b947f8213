/**
 The records a product manager keeps, the patch an update merges onto a record,
 and the JavaScript truthiness test that addProduct applies to its arguments.
 */
module Products {

  datatype Option<+T> = None | Some(value: T) {

    /** The carried value, or `default` when there is none. */
    function GetOr(default: T): T {
      match this
      case Some(v) => v
      case None => default
    }
  }

  /** One product as the JSON file stores it. `price` and `stock` are integers:
      the manager never does arithmetic on them, it only tests their truthiness. */
  datatype Product = Product(
    id: int,
    title: string,
    description: string,
    price: int,
    thumbnail: string,
    code: string,
    stock: int)

  /** The object handed to an update: every field may be present or absent,
      the id included. */
  datatype Patch = Patch(
    id: Option<int>,
    title: Option<string>,
    description: Option<string>,
    price: Option<int>,
    thumbnail: Option<string>,
    code: Option<string>,
    stock: Option<int>)

  /** The patch `{}`. */
  const EmptyPatch: Patch := Patch(None, None, None, None, None, None, None)

  /** The object spread `{...p, ...patch}`: a field the patch carries wins over the
      record's own, the id included. */
  function Spread(p: Product, patch: Patch): (r: Product)
    ensures patch.id.Some? ==> r.id == patch.id.value
    ensures patch.id.None? ==> r.id == p.id
    ensures patch.title.Some? ==> r.title == patch.title.value
    ensures patch.title.None? ==> r.title == p.title
    ensures patch.description.Some? ==> r.description == patch.description.value
    ensures patch.description.None? ==> r.description == p.description
    ensures patch.price.Some? ==> r.price == patch.price.value
    ensures patch.price.None? ==> r.price == p.price
    ensures patch.thumbnail.Some? ==> r.thumbnail == patch.thumbnail.value
    ensures patch.thumbnail.None? ==> r.thumbnail == p.thumbnail
    ensures patch.code.Some? ==> r.code == patch.code.value
    ensures patch.code.None? ==> r.code == p.code
    ensures patch.stock.Some? ==> r.stock == patch.stock.value
    ensures patch.stock.None? ==> r.stock == p.stock
  {
    Product(
      patch.id.GetOr(p.id),
      patch.title.GetOr(p.title),
      patch.description.GetOr(p.description),
      patch.price.GetOr(p.price),
      patch.thumbnail.GetOr(p.thumbnail),
      patch.code.GetOr(p.code),
      patch.stock.GetOr(p.stock))
  }

  /** The record an update stores: the spread of the patch over the record, with
      the id then pinned back to the record's own, so a patch never changes it. */
  function Merge(p: Product, patch: Patch): (r: Product)
    ensures r.id == p.id
    ensures patch.title.Some? ==> r.title == patch.title.value
    ensures patch.title.None? ==> r.title == p.title
    ensures patch.description.Some? ==> r.description == patch.description.value
    ensures patch.description.None? ==> r.description == p.description
    ensures patch.price.Some? ==> r.price == patch.price.value
    ensures patch.price.None? ==> r.price == p.price
    ensures patch.thumbnail.Some? ==> r.thumbnail == patch.thumbnail.value
    ensures patch.thumbnail.None? ==> r.thumbnail == p.thumbnail
    ensures patch.code.Some? ==> r.code == patch.code.value
    ensures patch.code.None? ==> r.code == p.code
    ensures patch.stock.Some? ==> r.stock == patch.stock.value
    ensures patch.stock.None? ==> r.stock == p.stock
  {
    Spread(p, patch).(id := p.id)
  }

  /** Merging the empty patch gives the record back unchanged. */
  lemma MergeEmptyPatch(p: Product)
    ensures Merge(p, EmptyPatch) == p
  {
  }

  /** Applying the same patch twice is the same as applying it once. */
  lemma MergeIdempotent(p: Product, patch: Patch)
    ensures Merge(Merge(p, patch), patch) == Merge(p, patch)
  {
  }

  /** The id a patch carries has no effect on the merged record. */
  lemma MergeIgnoresPatchId(p: Product, patch: Patch, id: Option<int>)
    ensures Merge(p, patch.(id := id)) == Merge(p, patch)
  {
  }

  /** Without the pinning step the spread alone would take the patch's id. */
  lemma SpreadTakesPatchId(p: Product, patch: Patch)
    requires patch.id.Some? && patch.id.value != p.id
    ensures Spread(p, patch).id != p.id
    ensures Merge(p, patch).id == p.id
  {
  }

  /** JavaScript truthiness of a string: only the empty string is falsy. */
  predicate FalsyString(s: string) {
    s == ""
  }

  /** JavaScript truthiness of an integer: only zero is falsy. */
  predicate FalsyNumber(n: int) {
    n == 0
  }

  /** addProduct's "missing fields" test: some argument is falsy. A legitimate
      price or stock of zero therefore counts as missing. */
  function MissingField(title: string, description: string, price: int,
                        thumbnail: string, code: string, stock: int): (r: bool)
    ensures price == 0 || stock == 0 ==> r
    ensures title != "" && description != "" && thumbnail != "" && code != ""
            ==> (r <==> price == 0 || stock == 0)
    ensures price != 0 && stock != 0
            ==> (r <==> title == "" || description == "" || thumbnail == "" || code == "")
  {
    FalsyString(title) || FalsyString(description) || FalsyNumber(price)
    || FalsyString(thumbnail) || FalsyString(code) || FalsyNumber(stock)
  }
}
