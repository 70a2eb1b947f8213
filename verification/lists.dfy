/**
 The array operations the product manager calls on its list of products:
 `some` on codes, `find` and `findIndex` on ids, `filter` on ids, and the
 `Math.max` over ids that seeds a new id. Each is written as a recursive
 function whose contract says what it computes.
 */
module ProductLists {
  import opened Products

  /** No two records share an id. */
  ghost predicate UniqueIds(ps: seq<Product>) {
    forall i, j :: 0 <= i < j < |ps| ==> ps[i].id != ps[j].id
  }

  /** No two records share a code. */
  ghost predicate UniqueCodes(ps: seq<Product>) {
    forall i, j :: 0 <= i < j < |ps| ==> ps[i].code != ps[j].code
  }

  /** Some record has the given id. */
  ghost predicate HasId(ps: seq<Product>, id: int) {
    exists i :: 0 <= i < |ps| && ps[i].id == id
  }

  /** `ps.some(i => i.code === code)`. */
  function HasCode(ps: seq<Product>, code: string): (r: bool)
    ensures r <==> exists i :: 0 <= i < |ps| && ps[i].code == code
  {
    if |ps| == 0 then false
    else ps[0].code == code || HasCode(ps[1..], code)
  }

  /** `Math.max(...ps.map(i => i.id))`, which the caller only evaluates on a
      non-empty list. */
  function MaxId(ps: seq<Product>): (m: int)
    requires |ps| > 0
    ensures forall i :: 0 <= i < |ps| ==> ps[i].id <= m
    ensures exists i :: 0 <= i < |ps| && ps[i].id == m
  {
    if |ps| == 1 then ps[0].id
    else
      var rest := MaxId(ps[1..]);
      if ps[0].id < rest then rest else ps[0].id
  }

  /** The id addProduct assigns: one more than the largest id, or 1 for an
      empty list. */
  function NextId(ps: seq<Product>): (r: int)
    ensures forall i :: 0 <= i < |ps| ==> ps[i].id < r
    ensures |ps| == 0 ==> r == 1
    ensures |ps| > 0 ==> exists i :: 0 <= i < |ps| && ps[i].id == r - 1
  {
    (if |ps| > 0 then MaxId(ps) else 0) + 1
  }

  /** `ps.findIndex(i => i.id === id)`: the first index holding the id, or -1. */
  function FindIndex(ps: seq<Product>, id: int): (k: int)
    ensures -1 <= k < |ps|
    ensures k == -1 <==> !HasId(ps, id)
    ensures 0 <= k ==> ps[k].id == id
    ensures 0 <= k ==> forall j :: 0 <= j < k ==> ps[j].id != id
  {
    if |ps| == 0 then -1
    else if ps[0].id == id then 0
    else
      var k := FindIndex(ps[1..], id);
      if k == -1 then -1 else k + 1
  }

  /** `ps.find(i => i.id === id)`: the first record holding the id, if any. */
  function Find(ps: seq<Product>, id: int): (r: Option<Product>)
    ensures r.None? <==> !HasId(ps, id)
    ensures r.Some? ==> r.value.id == id
    ensures r.Some? ==> exists k :: 0 <= k < |ps| && ps[k] == r.value
                                    && forall j :: 0 <= j < k ==> ps[j].id != id
  {
    if |ps| == 0 then None
    else if ps[0].id == id then Some(ps[0])
    else Find(ps[1..], id)
  }

  /** `ps.filter(i => i.id != id)`: the records with a different id, in order. */
  function Without(ps: seq<Product>, id: int): (r: seq<Product>)
    ensures forall p :: p in r <==> p in ps && p.id != id
    ensures |r| <= |ps|
    ensures |r| == |ps| <==> !HasId(ps, id)
    ensures !HasId(ps, id) ==> r == ps
  {
    if |ps| == 0 then []
    else if ps[0].id != id then [ps[0]] + Without(ps[1..], id)
    else Without(ps[1..], id)
  }

  /** `find` and `findIndex` agree: the record found sits at the index found. */
  lemma FindAtFindIndex(ps: seq<Product>, id: int)
    ensures Find(ps, id).None? <==> FindIndex(ps, id) == -1
    ensures FindIndex(ps, id) >= 0 ==> Find(ps, id) == Some(ps[FindIndex(ps, id)])
  {
  }

  /** Filtering keeps order: it distributes over concatenation. */
  lemma {:induction false} WithoutConcat(a: seq<Product>, b: seq<Product>, id: int)
    ensures Without(a + b, id) == Without(a, id) + Without(b, id)
  {
    if |a| == 0 {
      assert a + b == b;
    } else {
      assert (a + b)[1..] == a[1..] + b;
      WithoutConcat(a[1..], b, id);
    }
  }

  /** Filtering twice by the same id filters once. */
  lemma WithoutIdempotent(ps: seq<Product>, id: int)
    ensures Without(Without(ps, id), id) == Without(ps, id)
  {
  }

  /** No two records share a key. */
  ghost predicate UniqueKeys<K>(ps: seq<Product>, key: Product -> K) {
    forall i, j :: 0 <= i < j < |ps| ==> key(ps[i]) != key(ps[j])
  }

  /** A filtered list keeps any key of the list unique. */
  lemma {:induction false} WithoutKeepsUniqueKeys<K>(ps: seq<Product>, id: int, key: Product -> K)
    requires UniqueKeys(ps, key)
    ensures UniqueKeys(Without(ps, id), key)
  {
    if |ps| > 0 {
      var rest := ps[1..];
      assert UniqueKeys(rest, key) by {
        forall i, j | 0 <= i < j < |rest| ensures key(rest[i]) != key(rest[j]) {
          assert rest[i] == ps[i + 1] && rest[j] == ps[j + 1];
        }
      }
      WithoutKeepsUniqueKeys(rest, id, key);
      if ps[0].id != id {
        var tail := Without(rest, id);
        forall j | 0 <= j < |tail| ensures key(tail[j]) != key(ps[0]) {
          assert tail[j] in rest;
          var m :| 0 <= m < |rest| && rest[m] == tail[j];
          assert rest[m] == ps[m + 1];
        }
      }
    }
  }

  /** A filtered list keeps the ids of the list unique. */
  lemma {:induction false} WithoutKeepsUniqueIds(ps: seq<Product>, id: int)
    requires UniqueIds(ps)
    ensures UniqueIds(Without(ps, id))
  {
    var byId := (p: Product) => p.id;
    assert UniqueKeys(ps, byId);
    WithoutKeepsUniqueKeys(ps, id, byId);
  }

  /** A filtered list keeps the codes of the list unique. */
  lemma {:induction false} WithoutKeepsUniqueCodes(ps: seq<Product>, id: int)
    requires UniqueCodes(ps)
    ensures UniqueCodes(Without(ps, id))
  {
    var byCode := (p: Product) => p.code;
    assert UniqueKeys(ps, byCode);
    WithoutKeepsUniqueKeys(ps, id, byCode);
  }
}
