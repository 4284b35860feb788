/**
 * The product store: the list of products the console edits, with the
 * operations that replace, prepend, update, delete and look up products.
 * Each new list is computed from the old one by a spread, a `map` or a
 * `filter`; those computations are the functions below, and the class holds
 * the fields the store's setters overwrite.
 */
module ProductStore {
  import opened Common

  datatype Rating = Rating(rate: real, count: real)

  /** A product record; `id` is the key every operation looks products up by. */
  datatype Product = Product(
    id: int,
    title: Str,
    price: real,
    description: Str,
    category: Str,
    image: Str,
    rating: Rating)

  /** Some product in ps has this id. */
  predicate HasId(ps: seq<Product>, id: int) {
    exists i | 0 <= i < |ps| :: ps[i].id == id
  }

  /** No two products in ps share an id. */
  ghost predicate UniqueIds(ps: seq<Product>) {
    forall i, j :: 0 <= i < j < |ps| ==> ps[i].id != ps[j].id
  }

  /** ps[i] is the first product in ps with this id. */
  ghost predicate FirstWithId(ps: seq<Product>, id: int, i: int) {
    0 <= i < |ps| && ps[i].id == id && forall k :: 0 <= k < i ==> ps[k].id != id
  }

  /** The list with every product that has this id replaced by `product`
      under that same id; the other products stay as they are. */
  function Updated(ps: seq<Product>, id: int, product: Product): (r: seq<Product>)
    ensures |r| == |ps|
    ensures forall i :: 0 <= i < |ps| ==> r[i] == if ps[i].id == id then product.(id := id) else ps[i]
  {
    if ps == [] then []
    else [if ps[0].id == id then product.(id := id) else ps[0]] + Updated(ps[1..], id, product)
  }

  /** The list without the products that have this id. */
  function Removed(ps: seq<Product>, id: int): (r: seq<Product>)
    ensures |r| <= |ps|
    ensures forall i :: 0 <= i < |r| ==> r[i].id != id
  {
    if ps == [] then []
    else (if ps[0].id == id then [] else [ps[0]]) + Removed(ps[1..], id)
  }

  /** The first product with this id, if there is one. */
  function FindById(ps: seq<Product>, id: int): (r: Option<Product>)
    ensures r.None? <==> !HasId(ps, id)
    ensures r.Some? ==> exists i :: FirstWithId(ps, id, i) && ps[i] == r.value
  {
    if ps == [] then None
    else if ps[0].id == id then
      assert FirstWithId(ps, id, 0);
      Some(ps[0])
    else
      var r := FindById(ps[1..], id);
      assert HasId(ps, id) ==> HasId(ps[1..], id) by {
        if HasId(ps, id) {
          var i :| 0 <= i < |ps| && ps[i].id == id;
          assert ps[1..][i - 1].id == id;
        }
      }
      assert r.Some? ==> exists i :: FirstWithId(ps, id, i) && ps[i] == r.value by {
        if r.Some? {
          var i :| FirstWithId(ps[1..], id, i) && ps[1..][i] == r.value;
          assert FirstWithId(ps, id, i + 1);
        }
      }
      r
  }

  // ---------------------------------------------------------------------------
  // Properties of the operations

  /** Prepending a product under an id no product has keeps the ids unique. */
  lemma AddKeepsIdsUnique(ps: seq<Product>, product: Product, id: int)
    requires UniqueIds(ps) && !HasId(ps, id)
    ensures UniqueIds([product.(id := id)] + ps)
  {
    var r := [product.(id := id)] + ps;
    forall i, j | 0 <= i < j < |r| ensures r[i].id != r[j].id {
      if i == 0 {
        assert ps[j - 1].id == r[j].id;
      }
    }
  }

  /** The product just added is what a lookup of its id finds. */
  lemma AddThenFind(ps: seq<Product>, product: Product, id: int)
    ensures FindById([product.(id := id)] + ps, id) == Some(product.(id := id))
  {
  }

  /** Deleting the id just added restores the list, when the id was new. */
  lemma {:induction false} AddThenDelete(ps: seq<Product>, product: Product, id: int)
    requires !HasId(ps, id)
    ensures Removed([product.(id := id)] + ps, id) == ps
  {
    assert ([product.(id := id)] + ps)[1..] == ps;
    DeleteAbsentIsNoop(ps, id);
  }

  /** Updating an id no product has changes nothing. */
  lemma UpdateAbsentIsNoop(ps: seq<Product>, id: int, product: Product)
    requires !HasId(ps, id)
    ensures Updated(ps, id, product) == ps
  {
    var r := Updated(ps, id, product);
    forall i | 0 <= i < |ps| ensures r[i] == ps[i] {
      assert ps[i].id != id;
    }
  }

  /** An update keeps every id in its place, so unique ids stay unique. */
  lemma UpdateKeepsIds(ps: seq<Product>, id: int, product: Product)
    ensures forall i :: 0 <= i < |ps| ==> Updated(ps, id, product)[i].id == ps[i].id
    ensures UniqueIds(ps) ==> UniqueIds(Updated(ps, id, product))
  {
  }

  /** After an update of an id some product has, a lookup of that id finds
      the new record under that id. */
  lemma {:induction false} UpdateThenFind(ps: seq<Product>, id: int, product: Product)
    requires HasId(ps, id)
    ensures FindById(Updated(ps, id, product), id) == Some(product.(id := id))
    decreases |ps|
  {
    if ps[0].id != id {
      var i :| 0 <= i < |ps| && ps[i].id == id;
      assert ps[1..][i - 1].id == id;
      UpdateThenFind(ps[1..], id, product);
      assert Updated(ps, id, product)[1..] == Updated(ps[1..], id, product);
    }
  }

  /** Deleting keeps exactly the products whose id differs, each as often as
      it occurred. */
  lemma {:induction false} DeleteKeepsOthers(ps: seq<Product>, id: int)
    ensures forall p :: multiset(Removed(ps, id))[p] == if p.id == id then 0 else multiset(ps)[p]
    decreases |ps|
  {
    if ps != [] {
      DeleteKeepsOthers(ps[1..], id);
      assert ps == [ps[0]] + ps[1..];
    }
  }

  /** Deleting an id no product has changes nothing. */
  lemma {:induction false} DeleteAbsentIsNoop(ps: seq<Product>, id: int)
    requires !HasId(ps, id)
    ensures Removed(ps, id) == ps
    decreases |ps|
  {
    if ps != [] {
      assert ps[0].id != id;
      DeleteAbsentIsNoop(ps[1..], id);
      assert ps == [ps[0]] + ps[1..];
    }
  }

  /** Deleting leaves no product with that id, so deleting again changes nothing. */
  lemma DeleteIsIdempotent(ps: seq<Product>, id: int)
    ensures !HasId(Removed(ps, id), id)
    ensures Removed(Removed(ps, id), id) == Removed(ps, id)
    ensures FindById(Removed(ps, id), id) == None
  {
    DeleteAbsentIsNoop(Removed(ps, id), id);
  }

  /** Deleting keeps the order of what it keeps: it distributes over concatenation. */
  lemma {:induction false} DeleteKeepsOrder(a: seq<Product>, b: seq<Product>, id: int)
    ensures Removed(a + b, id) == Removed(a, id) + Removed(b, id)
    decreases |a|
  {
    if a == [] {
      assert a + b == b;
    } else {
      assert (a + b)[0] == a[0] && (a + b)[1..] == a[1..] + b;
      DeleteKeepsOrder(a[1..], b, id);
    }
  }

  // ---------------------------------------------------------------------------
  // The store

  class Store {
    var products: seq<Product>
    var loading: bool
    var error: Option<Str>

    /** The store as created: no products, not loading, no error. */
    constructor ()
      ensures products == [] && !loading && error == None
    {
      products := [];
      loading := false;
      error := None;
    }

    /** `setProducts`: replaces the list wholesale. */
    method SetProducts(ps: seq<Product>)
      modifies this
      ensures products == ps
      ensures loading == old(loading) && error == old(error)
    {
      products := ps;
    }

    /** `addProduct`: prepends the product under the id `now` (the clock
        reading the store takes is a parameter here). */
    method AddProduct(product: Product, now: int)
      modifies this
      ensures products == [product.(id := now)] + old(products)
      ensures loading == old(loading) && error == old(error)
    {
      products := [product.(id := now)] + products;
    }

    /** `updateProduct`: replaces every product with this id by `product`
        under the same id. */
    method UpdateProduct(id: int, product: Product)
      modifies this
      ensures products == Updated(old(products), id, product)
      ensures loading == old(loading) && error == old(error)
    {
      products := Updated(products, id, product);
    }

    /** `deleteProduct`: drops every product with this id. */
    method DeleteProduct(id: int)
      modifies this
      ensures products == Removed(old(products), id)
      ensures loading == old(loading) && error == old(error)
    {
      products := Removed(products, id);
    }

    /** `getProductById`: the first product with this id, if there is one. */
    function GetProductById(id: int): (r: Option<Product>)
      reads this
      ensures r.None? <==> !HasId(products, id)
      ensures r.Some? ==> exists i :: FirstWithId(products, id, i) && products[i] == r.value
    {
      FindById(products, id)
    }
  }
}
