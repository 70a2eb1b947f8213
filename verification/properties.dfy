/**
 Properties of the product manager that relate several operations, or that
 follow an invariant (unique ids, unique codes) across one operation.
 */
module ManagerProperties {
  import opened Products
  import opened ProductLists
  import opened Manager

  /** A rejected or accepted add leaves the in-memory codes unique. */
  lemma AddKeepsCodesUnique(s: Store, title: string, description: string, price: int,
                            thumbnail: string, code: string, stock: int)
    requires UniqueCodes(s.memory)
    ensures UniqueCodes(AddProduct(s, title, description, price, thumbnail, code, stock).store.memory)
  {
  }

  /** A rejected or accepted add leaves the in-memory ids unique. */
  lemma AddKeepsIdsUnique(s: Store, title: string, description: string, price: int,
                          thumbnail: string, code: string, stock: int)
    requires UniqueIds(s.memory)
    ensures UniqueIds(AddProduct(s, title, description, price, thumbnail, code, stock).store.memory)
  {
  }

  /** After a successful add, looking the new id up in the file finds exactly
      the record just added. */
  lemma AddThenGetById(s: Store, title: string, description: string, price: int,
                       thumbnail: string, code: string, stock: int)
    ensures var r := AddProduct(s, title, description, price, thumbnail, code, stock);
            r.value.Done? ==>
              var p := r.store.memory[|s.memory|];
              GetProductById(r.store, p.id).value == Some(p)
  {
  }

  /** Two successful adds in a row assign consecutive ids. */
  lemma AddTwiceConsecutiveIds(s: Store,
                               t1: string, d1: string, p1: int, th1: string, c1: string, s1: int,
                               t2: string, d2: string, p2: int, th2: string, c2: string, s2: int)
    ensures var a := AddProduct(s, t1, d1, p1, th1, c1, s1);
            var b := AddProduct(a.store, t2, d2, p2, th2, c2, s2);
            a.value.Done? && b.value.Done? ==>
              b.store.memory[|s.memory| + 1].id == a.store.memory[|s.memory|].id + 1
  {
  }

  /** An update never changes the id at any position. */
  lemma UpdateKeepsIds(s: Store, id: int, patch: Patch)
    ensures var r := UpdateProduct(s, id, patch);
            && |r.store.memory| == |Loaded(s.disk)|
            && forall i :: 0 <= i < |r.store.memory| ==> r.store.memory[i].id == Loaded(s.disk)[i].id
  {
  }

  /** So an update keeps the ids of the file unique, a missing file included. */
  lemma UpdateKeepsIdsUnique(s: Store, id: int, patch: Patch)
    requires UniqueIds(Loaded(s.disk))
    ensures UniqueIds(Loaded(UpdateProduct(s, id, patch).store.disk))
  {
  }

  /** Whatever id the patch carries, the update is the same. */
  lemma UpdateIgnoresPatchId(s: Store, id: int, patch: Patch, other: Option<int>)
    ensures UpdateProduct(s, id, patch.(id := other)) == UpdateProduct(s, id, patch)
  {
  }

  /** After a successful update, looking the id up in the file finds the
      merged record. */
  lemma UpdateThenGetById(s: Store, id: int, patch: Patch)
    ensures var r := UpdateProduct(s, id, patch);
            r.value == Done ==>
              var ps := Loaded(s.disk);
              GetProductById(r.store, id).value == Some(Merge(ps[FindIndex(ps, id)], patch))
  {
  }

  /** An update is not checked against the other codes: a patch can give a
      record the code of another one. */
  lemma UpdateCanDuplicateCode()
    ensures var a := Product(1, "T", "D", 200, "thumb", "abc123", 25);
            var b := Product(2, "T2", "D2", 50, "thumb2", "xyz789", 10);
            var s := Create(Some([a, b]));
            var patch := EmptyPatch.(code := Some("abc123"));
            && UniqueCodes(Loaded(s.disk))
            && UpdateProduct(s, 2, patch).value == Done
            && !UniqueCodes(UpdateProduct(s, 2, patch).store.disk.value)
  {
  }

  /** Deleting keeps the ids and codes of the file unique. */
  lemma DeleteKeepsUnique(s: Store, id: int)
    requires UniqueIds(Loaded(s.disk)) && UniqueCodes(Loaded(s.disk))
    ensures UniqueIds(DeleteProduct(s, id).disk.value)
    ensures UniqueCodes(DeleteProduct(s, id).disk.value)
  {
    WithoutKeepsUniqueIds(Loaded(s.disk), id);
    WithoutKeepsUniqueCodes(Loaded(s.disk), id);
  }

  /** Deleting keeps the order of the records that remain. */
  lemma DeleteKeepsOrder(before: seq<Product>, victim: Product, after: seq<Product>)
    requires forall i :: 0 <= i < |before| ==> before[i].id != victim.id
    requires forall i :: 0 <= i < |after| ==> after[i].id != victim.id
    ensures DeleteProduct(Create(Some(before + [victim] + after)), victim.id).disk
            == Some(before + after)
  {
    var id := victim.id;
    assert !HasId(before, id) && !HasId(after, id);
    assert Without([victim], id) == [];
    WithoutConcat(before + [victim], after, id);
    WithoutConcat(before, [victim], id);
    assert Without(before + [victim], id) == before;
  }

  /** Deleting keeps the order and the number of copies of the records that
      remain: split the loaded list anywhere, and the file receives the kept
      part of the front followed by the kept part of the back. */
  lemma DeleteKeepsRelativeOrder(memory: seq<Product>, front: seq<Product>,
                                 back: seq<Product>, id: int)
    ensures DeleteProduct(Store(memory, Some(front + back)), id).disk
            == Some(Without(front, id) + Without(back, id))
  {
    WithoutConcat(front, back, id);
  }

  /** After a delete, looking the id up in the file finds nothing. */
  lemma DeleteThenGetById(s: Store, id: int)
    ensures GetProductById(DeleteProduct(s, id), id).value.None?
  {
  }

  /** Deleting the same id twice leaves the file as deleting it once. */
  lemma DeleteTwice(s: Store, id: int)
    ensures DeleteProduct(DeleteProduct(s, id), id).disk == DeleteProduct(s, id).disk
  {
  }

  /** When the id was present, the delete leaves memory and file apart: memory
      still holds the deleted record. */
  lemma DeleteLeavesMemoryStale(s: Store, id: int)
    requires HasId(Loaded(s.disk), id)
    ensures var r := DeleteProduct(s, id);
            r.memory != r.disk.value
            && exists p :: p in r.memory && p.id == id && p !in r.disk.value
  {
  }

  /** Because of that, a successful add right after a delete writes the deleted
      record back to the file. */
  lemma DeleteThenAddRestores(s: Store, id: int, title: string, description: string,
                              price: int, thumbnail: string, code: string, stock: int)
    ensures var a := AddProduct(DeleteProduct(s, id), title, description, price,
                                thumbnail, code, stock);
            a.value.Done? ==>
              forall p :: p in Loaded(s.disk) ==> p in a.store.disk.value
  {
  }

  /** The falsy-field guard, seen through addProduct: with a fresh code and
      non-empty strings, a zero price or stock is rejected as missing and
      changes nothing, while any non-zero price and stock, negative ones
      included, are accepted. */
  lemma AddFalsyNumbersRejected(s: Store, title: string, description: string, price: int,
                                thumbnail: string, code: string, stock: int)
    requires forall i :: 0 <= i < |s.memory| ==> s.memory[i].code != code
    requires title != "" && description != "" && thumbnail != "" && code != ""
    ensures var r := AddProduct(s, title, description, price, thumbnail, code, stock);
            && (r.value == MissingFields <==> price == 0 || stock == 0)
            && (r.value == MissingFields ==> r.store == s)
            && (r.value == Done <==> price != 0 && stock != 0)
  {
  }

  /** The duplicate check comes first: a code already in memory is reported as
      a duplicate even when every other field is missing. */
  lemma AddDuplicateBeforeMissing(s: Store, code: string)
    requires exists i :: 0 <= i < |s.memory| && s.memory[i].code == code
    ensures AddProduct(s, "", "", 0, "", code, 0) == Reply(s, AlreadyExists)
  {
  }

  /** addProduct never reloads: on a fresh manager the first successful add
      sees an empty list, so it writes a file holding only the new record, with
      id 1, whatever the file held before. */
  lemma AddOnFreshManagerIgnoresFile(disk: Option<seq<Product>>, title: string,
                                     description: string, price: int,
                                     thumbnail: string, code: string, stock: int)
    ensures var a := AddProduct(Create(disk), title, description, price, thumbnail, code, stock);
            a.value.Done? ==>
              a.store.disk == Some([Product(1, title, description, price, thumbnail, code, stock)])
  {
  }

  /** Reading the file back after a write gives exactly the list written. */
  lemma WriteThenRead(s: Store, ps: seq<Product>)
    ensures ReadProducts(WriteProducts(s, ps)).memory == ps
    ensures GetProducts(WriteProducts(s, ps)).value == ps
  {
  }

  /** The test run at the end of ProductManager.js, against a missing file:
      list, add, list, look up id 1, update id 1, delete id 1. One step is not
      part of that run and is added here: a second add reusing the code
      "abc123", which is rejected. */
  lemma Scenario()
    ensures var p := Product(1, "Producto prueba", "Este es un producto prueba", 200,
                             "sin imagen", "abc123", 25);
            var q := p.(title := "Nuevo nombre", price := 300, stock := 50);
            var patch := EmptyPatch.(title := Some("Nuevo nombre"), price := Some(300),
                                     stock := Some(50));
            var g0 := GetProducts(Create(None));
            var a := AddProduct(g0.store, "Producto prueba", "Este es un producto prueba", 200,
                                "sin imagen", "abc123", 25);
            var g1 := GetProducts(a.store);
            var look := GetProductById(g1.store, 1);
            var u := UpdateProduct(look.store, 1, patch);
            var d := DeleteProduct(u.store, 1);
            var dup := AddProduct(a.store, "Otro", "Otro producto", 50, "sin imagen", "abc123", 10);
            && g0.value == []
            && a.value == Done && a.store.disk == Some([p])
            && g1.value == [p]
            && look.value == Some(p)
            && u.value == Done && u.store.disk == Some([q])
            && d.disk == Some([]) && d.memory == [q]
            && dup.value == AlreadyExists && dup.store == a.store
  {
    var p := Product(1, "Producto prueba", "Este es un producto prueba", 200,
                     "sin imagen", "abc123", 25);
    var q := p.(title := "Nuevo nombre", price := 300, stock := 50);
    var patch := EmptyPatch.(title := Some("Nuevo nombre"), price := Some(300),
                             stock := Some(50));
    var g0 := GetProducts(Create(None));
    assert g0.store.memory == [];
    var a := AddProduct(g0.store, "Producto prueba", "Este es un producto prueba", 200,
                        "sin imagen", "abc123", 25);
    assert a.value == Done;
    assert a.store.memory[0] == p;
    assert a.store.memory == [p];
    var look := GetProductById(GetProducts(a.store).store, 1);
    assert FindIndex([p], 1) == 0;
    var u := UpdateProduct(look.store, 1, patch);
    assert u.store.memory[0] == Merge(p, patch) == q;
    assert u.store.memory == [q];
    assert Without([q], 1) == [];
  }
}
