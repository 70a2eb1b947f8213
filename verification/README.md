# ProductManager, modelled in Dafny

A model of the `ProductManager` class: a product store that keeps a list of
product records in memory (`this.products`) next to a JSON file, and offers
`addProduct`, `getProducts`, `getProductById`, `updateProduct` and
`deleteProduct`.

The store is a pair of lists, `Store(memory, disk)`. `disk` is the list the
file parses to, or `None` when the file is missing or does not parse.
`readProducts` copies the file's list into memory, or the empty list when there
is none. `writeProducts` replaces the file's list and leaves memory alone.
Every operation is a pure function. It returns the store it leaves behind
together with what it reports: `Done`, `AlreadyExists`, `MissingFields`,
`NotFound`, or the product looked up. The original only logs these outcomes.

Modules:

- `Products` (`products.dfy`): the `Product` record, the update `Patch` with
  optional fields, the object-spread merge with the id pinned, and the
  truthiness test `addProduct` applies.
- `ProductLists` (`lists.dfy`): the array operations the class uses, each as a
  recursive function whose contract says what it computes. These are `some`
  on codes, `find`/`findIndex` on ids, `filter` on ids, and `Math.max` over
  ids. It also defines the uniqueness invariants.
- `Manager` (`manager.dfy`): the store and the class's methods.
- `ManagerProperties` (`properties.dfy`): invariants kept across one
  operation, and properties relating several operations.

Behaviours of the code worth knowing:

- `addProduct` tests for a duplicate code before it tests for missing fields.
  So an add that is both a duplicate and incomplete reports `AlreadyExists`.
- `addProduct` reloads the file only when `this.products` is falsy. The list
  starts as `[]`, which is truthy, and every list a read stores is truthy too,
  so for a file holding a JSON array the reload never happens. The duplicate
  check and the new id then use whatever list is in memory. So the first add
  on a fresh manager ignores the file: it writes a file holding only the new
  record, with id 1, even over a non-empty file (`AddOnFreshManagerIgnoresFile`).
- `deleteProduct` writes the filtered list to the file but leaves memory
  holding the unfiltered list it just loaded. `DeleteThenAddRestores` shows
  the consequence: a successful add right after a delete writes the deleted
  record back to the file.
- `updateProduct` does not check the patched code against the other records.
  `UpdateCanDuplicateCode` exhibits an update that breaks code uniqueness.
- A price or stock of zero counts as a missing field, and a negative one is
  accepted (`AddFalsyNumbersRejected`).

## Model

| member | source | states |
|---|---|---|
| Products.Merge | ProductManager.js:95-99 | the updated record keeps the original id; each field the patch carries overwrites the old value, and each absent field keeps it |
| Products.MergeIgnoresPatchId | ProductManager.js:95-99 | the id inside a patch has no effect on the merged record |
| Products.SpreadTakesPatchId | ProductManager.js:96-98 | the spread alone would take a differing patch id, and the pinned merge keeps the original |
| Products.MergeEmptyPatch | ProductManager.js:95-99 | merging an empty patch gives the record back unchanged |
| Products.MergeIdempotent | ProductManager.js:95-99 | applying the same patch twice gives the same record as applying it once |
| Products.Spread | ProductManager.js:96-97 | in the object spread each field the patch carries, the id included, wins over the record's own, and each absent field keeps the record's value |
| Products.MissingField | ProductManager.js:23 | a zero price or stock always counts as missing; with non-empty strings, exactly a zero price or stock counts; with non-zero numbers, exactly an empty string counts |
| ProductLists.HasCode | ProductManager.js:16 | `some` on codes is true exactly when some record has the code |
| ProductLists.MaxId | ProductManager.js:28 | the maximum of a non-empty list's ids is at least every id and is the id of some record |
| ProductLists.NextId | ProductManager.js:28-29 | the new id exceeds every existing id; it is 1 on an empty list and otherwise one more than some existing id |
| ProductLists.FindIndex | ProductManager.js:88 | `findIndex` returns -1 exactly when no record has the id, and otherwise the first index holding it |
| ProductLists.Find | ProductManager.js:75-78 | `find` returns nothing exactly when no record has the id, and otherwise the first record holding it |
| ProductLists.Without | ProductManager.js:110 | `filter` keeps exactly the records with a different id; the list shrinks exactly when the id was present and is returned unchanged otherwise |
| ProductLists.FindAtFindIndex | ProductManager.js:75 | `find` returns the record at the index `findIndex` returns, and both report absence together |
| ProductLists.WithoutConcat | ProductManager.js:110 | filtering distributes over concatenation, so the kept records stay in their original order |
| ProductLists.WithoutIdempotent | ProductManager.js:110 | filtering twice by the same id is the same as filtering once |
| ProductLists.WithoutKeepsUniqueKeys | ProductManager.js:110 | filtering a list on which some key of the records is unique leaves that key unique |
| ProductLists.WithoutKeepsUniqueIds | ProductManager.js:110 | filtering a list with unique ids leaves the ids unique |
| ProductLists.WithoutKeepsUniqueCodes | ProductManager.js:110 | filtering a list with unique codes leaves the codes unique |
| Manager.Create | ProductManager.js:5-8 | a new manager starts with an empty in-memory list and leaves the file as it is |
| Manager.Loaded | ProductManager.js:49-57 | a read yields the file's list, or the empty list when the file is missing or does not parse |
| Manager.ReadProducts | ProductManager.js:49-57 | a read replaces memory with the loaded list and leaves the file alone |
| Manager.WriteProducts | ProductManager.js:59-65 | a write replaces the file's list and leaves memory alone |
| Manager.AddProduct | ProductManager.js:10-47 | a duplicate code is reported first and changes nothing; otherwise a falsy field is reported and changes nothing; otherwise exactly one record with the given fields and a fresh id greater than every existing id is appended, every earlier record is kept, and the whole list is written |
| Manager.GetProducts | ProductManager.js:67-70 | reloads from the file and returns the file's list, or the empty list when there is no readable file |
| Manager.GetProductById | ProductManager.js:72-83 | reloads from the file and returns the first record with the id, or not-found exactly when no record has it |
| Manager.UpdateProduct | ProductManager.js:85-106 | an absent id is reported and nothing is written; otherwise only the first record with the id is replaced by its merge with the patch, the length and every other record are kept, and the list is written |
| Manager.DeleteProduct | ProductManager.js:108-112 | the file receives only loaded records whose id differs, and every one of them; it is the loaded list unchanged when the id is absent and shorter when present; memory keeps the unfiltered loaded list |
| ManagerProperties.AddKeepsCodesUnique | ProductManager.js:16-21 | an add, accepted or rejected, keeps the in-memory codes unique |
| ManagerProperties.AddKeepsIdsUnique | ProductManager.js:28-41 | an add, accepted or rejected, keeps the in-memory ids unique |
| ManagerProperties.AddThenGetById | ProductManager.js:28-42 | after a successful add, looking the new id up finds exactly the added record |
| ManagerProperties.AddTwiceConsecutiveIds | ProductManager.js:28-29 | two successful adds in a row assign consecutive ids |
| ManagerProperties.UpdateKeepsIds | ProductManager.js:95-99 | an update leaves the id at every position unchanged |
| ManagerProperties.UpdateKeepsIdsUnique | ProductManager.js:87-101 | an update keeps the file's ids unique, whether or not the file existed |
| ManagerProperties.UpdateIgnoresPatchId | ProductManager.js:95-99 | an update gives the same result whatever id the patch carries |
| ManagerProperties.UpdateThenGetById | ProductManager.js:95-101 | after a successful update, looking the id up finds the merged record |
| ManagerProperties.UpdateCanDuplicateCode | ProductManager.js:95-101 | an update can give a record another record's code, because it does not check codes |
| ManagerProperties.DeleteKeepsUnique | ProductManager.js:110-111 | a delete keeps the file's ids and codes unique |
| ManagerProperties.DeleteKeepsRelativeOrder | ProductManager.js:110-111 | for any split of the loaded list, the file receives the kept records of the front followed by those of the back, so order and copies are preserved |
| ManagerProperties.DeleteKeepsOrder | ProductManager.js:110-111 | deleting the one record with an id writes the records before and after it, in order |
| ManagerProperties.DeleteThenGetById | ProductManager.js:108-111 | after a delete, looking the id up finds nothing |
| ManagerProperties.DeleteTwice | ProductManager.js:108-111 | deleting the same id twice leaves the file as deleting it once |
| ManagerProperties.DeleteLeavesMemoryStale | ProductManager.js:109-111 | after deleting a present id, memory still holds a record with that id and the file does not |
| ManagerProperties.DeleteThenAddRestores | ProductManager.js:108-111 | a successful add after a delete writes every record loaded before the delete back to the file |
| ManagerProperties.AddFalsyNumbersRejected | ProductManager.js:23-26 | with a fresh code and non-empty strings, an add is rejected as missing fields, changing nothing, exactly when price or stock is zero, and succeeds otherwise, negative values included |
| ManagerProperties.AddDuplicateBeforeMissing | ProductManager.js:16-26 | a code already in memory is reported as a duplicate, with nothing changed, even when every other field is missing |
| ManagerProperties.AddOnFreshManagerIgnoresFile | ProductManager.js:7-42 | the first successful add on a fresh manager writes a file holding only the new record, with id 1, whatever the file held before |
| ManagerProperties.WriteThenRead | ProductManager.js:49-65 | reading after a write gives back exactly the list written |
| ManagerProperties.Scenario | ProductManager.js:118-131 | the file's test run on a missing file: the list is empty, the add gets id 1, the next list shows it, the lookup finds it, the update changes title, price and stock, and the delete empties the file; a second add reusing its code, which is not part of that run, is rejected |

## Left out

- File I/O through `fsPromises.readFile` and `writeFile`, and the JSON text
  format. The file is modelled by the list it parses to. A parse failure is
  the `None` case, which reads as the empty list.
- Write failures. `writeProducts` catches and logs them. In the model a write
  always succeeds.
- `console.log` and `console.error` output, and the `try`/`catch` blocks that
  turn errors into log lines. The model returns the outcome as a value instead.
- Asynchrony, and the lost-update race between interleaved callers. Each
  operation is modelled as one atomic step.
- A file that parses to a JSON value other than an array, such as `null`,
  `false`, `0` or `""`. A read stores such a value as `this.products`. If it
  is falsy, `addProduct` reloads (ProductManager.js:12-14) and then fails, and
  so do `updateProduct` and `getProductById`; each logs the error. Its
  unhandled failure rejects `deleteProduct`. The file is modelled only as a
  list of products or as unreadable, so the reload branch never runs here.
- ProductLists.NextId: ids are unbounded integers. JavaScript numbers are
  doubles, so from a maximum id of 2^53 up, `maxId + 1` is rounded to a
  double: it can equal `maxId`, so the new record repeats an id, or skip to
  `maxId + 2`. The model holds for ids below 2^53.
- Manager.AddProduct: `Math.max(...ids)` throws a `RangeError` on a list longer
  than the engine's argument limit, and the error is caught and nothing is
  added; the model always adds, so it holds for lists below that limit.
- Loose `!=` in `deleteProduct` versus strict `===` elsewhere. Ids are
  integers in the model, and on integers the two agree.
- JavaScript values other than the modelled field types. These include
  `undefined` arguments, fractional or non-numeric prices, patches carrying
  extra keys, and file records with missing fields. Strings and integers stand
  in for them. Absent strings are the empty string, which is also falsy.
