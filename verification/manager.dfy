/**
 The ProductManager class: an in-memory list of products (`this.products`) kept
 beside a JSON file. The file is modelled by the list it parses to, and reading
 and writing it are assignments between the two halves of the store. Every
 public operation returns the store it leaves behind together with what it
 reports; the original only logs its outcome.
 */
module Manager {
  import opened Products
  import opened ProductLists

  /** `memory` is `this.products`; `disk` is the list the file parses to, or None
      when the file is missing or does not parse. */
  datatype Store = Store(memory: seq<Product>, disk: Option<seq<Product>>)

  /** What an operation reports on its diagnostic channel. */
  datatype Report = Done | AlreadyExists | MissingFields | NotFound

  /** The store an operation leaves behind, and its answer. */
  datatype Reply<T> = Reply(store: Store, value: T)

  /** The constructor: the file is whatever it is, the in-memory list starts empty. */
  function Create(disk: Option<seq<Product>>): (s: Store)
    ensures s.memory == [] && s.disk == disk
  {
    Store([], disk)
  }

  /** The list readProducts leaves in memory: the file's contents, or the empty
      list when the file cannot be read or parsed. */
  function Loaded(disk: Option<seq<Product>>): (ps: seq<Product>)
    ensures disk.Some? ==> ps == disk.value
    ensures disk.None? ==> ps == []
  {
    disk.GetOr([])
  }

  /** readProducts: replace the in-memory list by the file's contents. */
  function ReadProducts(s: Store): (r: Store)
    ensures r.disk == s.disk
    ensures r.memory == Loaded(s.disk)
  {
    s.(memory := Loaded(s.disk))
  }

  /** writeProducts: replace the file's contents by the given list; the in-memory
      list is left alone. */
  function WriteProducts(s: Store, ps: seq<Product>): (r: Store)
    ensures r.memory == s.memory
    ensures r.disk == Some(ps)
  {
    s.(disk := Some(ps))
  }

  /** addProduct. In this model the in-memory list is always a list, which
      JavaScript treats as truthy (it starts as `[]`), so the reload guarded by
      `!this.products` is never taken and the checks run on whatever is in
      memory. A duplicate code is rejected before the fields are tested; a new
      record gets the next id, goes at the end of the list, and the whole list
      is written out. */
  function AddProduct(s: Store, title: string, description: string, price: int,
                      thumbnail: string, code: string, stock: int): (r: Reply<Report>)
    ensures r.value == AlreadyExists <==> exists i :: 0 <= i < |s.memory| && s.memory[i].code == code
    ensures r.value == MissingFields
            <==> (forall i :: 0 <= i < |s.memory| ==> s.memory[i].code != code)
                 && MissingField(title, description, price, thumbnail, code, stock)
    ensures r.value != NotFound
    ensures !r.value.Done? ==> r.store == s
    ensures r.value.Done? ==>
              && |r.store.memory| == |s.memory| + 1
              && r.store.memory[..|s.memory|] == s.memory
              && r.store.disk == Some(r.store.memory)
    ensures r.value.Done? ==>
              var p := r.store.memory[|s.memory|];
              && p.title == title && p.description == description && p.price == price
              && p.thumbnail == thumbnail && p.code == code && p.stock == stock
              && (forall i :: 0 <= i < |s.memory| ==> s.memory[i].id < p.id)
              && (|s.memory| == 0 ==> p.id == 1)
              && (|s.memory| > 0 ==> exists i :: 0 <= i < |s.memory| && s.memory[i].id == p.id - 1)
  {
    if HasCode(s.memory, code) then Reply(s, AlreadyExists)
    else if MissingField(title, description, price, thumbnail, code, stock) then Reply(s, MissingFields)
    else
      var p := Product(NextId(s.memory), title, description, price, thumbnail, code, stock);
      var pushed := s.(memory := s.memory + [p]);
      Reply(WriteProducts(pushed, pushed.memory), Done)
  }

  /** getProducts: reload from the file and hand back the list. */
  function GetProducts(s: Store): (r: Reply<seq<Product>>)
    ensures r.store.disk == s.disk
    ensures r.value == r.store.memory
    ensures s.disk.Some? ==> r.value == s.disk.value
    ensures s.disk.None? ==> r.value == []
  {
    var loaded := ReadProducts(s);
    Reply(loaded, loaded.memory)
  }

  /** getProductById: reload from the file and look up the first record with the
      id; None is the "Product not found" report. */
  function GetProductById(s: Store, id: int): (r: Reply<Option<Product>>)
    ensures r.store.disk == s.disk && r.store.memory == Loaded(s.disk)
    ensures r.value.None? <==> !HasId(Loaded(s.disk), id)
    ensures r.value.Some? ==> r.value.value.id == id
    ensures r.value.Some? ==>
              var ps := Loaded(s.disk);
              exists k :: 0 <= k < |ps| && ps[k] == r.value.value
                          && forall j :: 0 <= j < k ==> ps[j].id != id
  {
    var loaded := ReadProducts(s);
    Reply(loaded, Find(loaded.memory, id))
  }

  /** updateProduct: reload from the file, find the first record with the id,
      shallow-merge the patch onto it with the id pinned, and write the whole
      list out. An unknown id is reported and nothing is written. */
  function UpdateProduct(s: Store, id: int, patch: Patch): (r: Reply<Report>)
    ensures r.value == Done || r.value == NotFound
    ensures r.value == NotFound <==> !HasId(Loaded(s.disk), id)
    ensures r.value == NotFound ==> r.store.disk == s.disk && r.store.memory == Loaded(s.disk)
    ensures r.value == Done ==>
              var ps := Loaded(s.disk);
              var k := FindIndex(ps, id);
              && 0 <= k < |ps|
              && |r.store.memory| == |ps|
              && r.store.memory[k] == Merge(ps[k], patch)
              && (forall j :: 0 <= j < |ps| && j != k ==> r.store.memory[j] == ps[j])
              && r.store.disk == Some(r.store.memory)
  {
    var loaded := ReadProducts(s);
    var k := FindIndex(loaded.memory, id);
    if k == -1 then Reply(loaded, NotFound)
    else
      var updated := loaded.(memory := loaded.memory[k := Merge(loaded.memory[k], patch)]);
      Reply(WriteProducts(updated, updated.memory), Done)
  }

  /** deleteProduct: reload from the file and write back every record whose id
      differs, whether or not one matched. The filtered list goes only to the
      file: the in-memory list stays as it was loaded. */
  function DeleteProduct(s: Store, id: int): (r: Store)
    ensures r.memory == Loaded(s.disk)
    ensures r.disk.Some?
    ensures forall p :: p in r.disk.value <==> p in Loaded(s.disk) && p.id != id
    ensures !HasId(Loaded(s.disk), id) ==> r.disk == Some(Loaded(s.disk))
    ensures HasId(Loaded(s.disk), id) ==> |r.disk.value| < |Loaded(s.disk)|
  {
    var loaded := ReadProducts(s);
    WriteProducts(loaded, Without(loaded.memory, id))
  }
}
