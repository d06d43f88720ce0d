/**
 * The catalog as `getAllProductsFromDb` returns it: products in row order,
 * each with its images and its variants, and the resolution of a cart id to
 * the stock-bearing entity it names (a variant of a `hasVariants` product
 * first, a top-level product otherwise).
 */
module Products {
  import opened Wrappers
  import opened Basics

  /** A row of `product_variants`. Stock is None when the column is not a finite number. */
  datatype Variant = Variant(id: string, name: string, size: string, price: real, stock: Option<int>)

  /** A row of `products` with its images and variants. */
  datatype Product = Product(
    id: string,
    title: string,
    description: string,
    img: string,
    category: string,
    price: Option<real>,
    stock: Option<int>,
    hasVariants: bool,
    additionalImages: seq<string>,
    variants: seq<Variant>)

  /** A stock-bearing entity, by position in the catalog. */
  datatype Target = VariantAt(p: nat, v: nat) | ProductAt(p: nat)

  /** Product ids are the primary key of `products`, variant ids that of `product_variants`. */
  predicate UniqueIds(ps: seq<Product>)
  {
    && (forall i, j :: 0 <= i < j < |ps| ==> ps[i].id != ps[j].id)
    && (forall i, j, a, b ::
          (0 <= i < |ps| && 0 <= j < |ps| && 0 <= a < |ps[i].variants| && 0 <= b < |ps[j].variants|
           && ps[i].variants[a].id == ps[j].variants[b].id) ==> i == j && a == b)
  }

  predicate ValidTarget(ps: seq<Product>, t: Target)
  {
    match t
    case ProductAt(i) => i < |ps|
    case VariantAt(i, j) => i < |ps| && j < |ps[i].variants|
  }

  /** The id a target is known by. */
  function IdOf(ps: seq<Product>, t: Target): string
    requires ValidTarget(ps, t)
  {
    match t
    case ProductAt(i) => ps[i].id
    case VariantAt(i, j) => ps[i].variants[j].id
  }

  /** The stock of a target; None for a position outside the catalog. */
  function StockAt(ps: seq<Product>, t: Target): Option<int>
  {
    match t
    case ProductAt(i) => if i < |ps| then ps[i].stock else None
    case VariantAt(i, j) => if i < |ps| && j < |ps[i].variants| then ps[i].variants[j].stock else None
  }

  /** The name used in the insufficient-stock message: `title` or `title - variant name`. */
  function DisplayTitle(ps: seq<Product>, t: Target): string
    requires ValidTarget(ps, t)
  {
    match t
    case ProductAt(i) => ps[i].title
    case VariantAt(i, j) => ps[i].title + " - " + ps[i].variants[j].name
  }

  /** The target with its stock set to `v`; the catalog unchanged for a position outside it. */
  function SetStock(ps: seq<Product>, t: Target, v: int): seq<Product>
  {
    match t
    case ProductAt(i) =>
      if i < |ps| then ps[i := ps[i].(stock := Some(v))] else ps
    case VariantAt(i, j) =>
      if i < |ps| && j < |ps[i].variants|
      then ps[i := ps[i].(variants := ps[i].variants[j := ps[i].variants[j].(stock := Some(v))])]
      else ps
  }

  /** Two products that differ in stock values at most. */
  predicate SameButStock(p: Product, q: Product)
  {
    && p.(stock := q.stock, variants := q.variants) == q
    && |p.variants| == |q.variants|
    && forall j :: 0 <= j < |p.variants| ==> p.variants[j].(stock := q.variants[j].stock) == q.variants[j]
  }

  /** Two catalogs that differ in stock values at most. */
  predicate SameButStocks(ps: seq<Product>, qs: seq<Product>)
  {
    |ps| == |qs| && forall i :: 0 <= i < |ps| ==> SameButStock(ps[i], qs[i])
  }

  // ---------------------------------------------------------------------
  // Resolution of a cart id
  // ---------------------------------------------------------------------

  /** A `hasVariants` product one of whose variants has id `id`. */
  predicate OffersVariant(p: Product, id: string)
  {
    p.hasVariants && exists j :: 0 <= j < |p.variants| && p.variants[j].id == id
  }

  /** `variants.find(v => v.id === id)`, as the index of the first match. */
  function FindVariant(vs: seq<Variant>, id: string): (r: Option<nat>)
    ensures r.Some? ==> r.value < |vs| && vs[r.value].id == id
    ensures r.Some? ==> forall j :: 0 <= j < r.value ==> vs[j].id != id
    ensures r.None? ==> forall j :: 0 <= j < |vs| ==> vs[j].id != id
  {
    FindFirst(vs, (v: Variant) => v.id == id)
  }

  /** The variant scan over the products from index `from` on: the first product
      offering a variant with this id, and that variant. */
  function VariantSearch(ps: seq<Product>, id: string, from: nat): (r: Option<Target>)
    decreases |ps| - from
    ensures r.Some? ==> r.value.VariantAt? && from <= r.value.p && ValidTarget(ps, r.value)
    ensures r.Some? ==> OffersVariant(ps[r.value.p], id) && IdOf(ps, r.value) == id
    ensures r.Some? ==> forall i :: from <= i < r.value.p ==> !OffersVariant(ps[i], id)
    ensures r.None? ==> forall i :: from <= i < |ps| ==> !OffersVariant(ps[i], id)
  {
    if from >= |ps| then None
    else if ps[from].hasVariants && FindVariant(ps[from].variants, id).Some?
    then Some(VariantAt(from, FindVariant(ps[from].variants, id).value))
    else VariantSearch(ps, id, from + 1)
  }

  /** `Object.fromEntries(catalog.map((p, i) => [p.id, i]))`: a later product with the
      same id overwrites an earlier one. */
  function IdToIndex(ps: seq<Product>): (m: map<string, nat>)
    ensures forall id :: id in m <==> exists i :: 0 <= i < |ps| && ps[i].id == id
    ensures forall id | id in m :: m[id] < |ps| && ps[m[id]].id == id
    ensures forall id | id in m :: forall i :: m[id] < i < |ps| ==> ps[i].id != id
  {
    if ps == [] then map[]
    else
      var init := ps[..|ps| - 1];
      var m0 := IdToIndex(init);
      var m := m0[ps[|ps| - 1].id := |ps| - 1];
      IndexStep(ps, init, m0, m);
      m
  }

  /** The step of `IdToIndex`: entering the last product over the index of the others. */
  lemma IndexStep(ps: seq<Product>, init: seq<Product>, m0: map<string, nat>, m: map<string, nat>)
    requires ps != [] && init == ps[..|ps| - 1] && m == m0[ps[|ps| - 1].id := |ps| - 1]
    requires forall id :: id in m0 <==> exists i :: 0 <= i < |init| && init[i].id == id
    requires forall id | id in m0 :: m0[id] < |init| && init[m0[id]].id == id
    requires forall id | id in m0 :: forall i :: m0[id] < i < |init| ==> init[i].id != id
    ensures forall id :: id in m <==> exists i :: 0 <= i < |ps| && ps[i].id == id
    ensures forall id | id in m :: m[id] < |ps| && ps[m[id]].id == id
    ensures forall id | id in m :: forall i :: m[id] < i < |ps| ==> ps[i].id != id
  {
    var n := |ps| - 1;
    assert forall i :: 0 <= i < n ==> init[i] == ps[i];
    forall id | id in m
      ensures m[id] < |ps| && ps[m[id]].id == id
      ensures forall i :: m[id] < i < |ps| ==> ps[i].id != id
    {
      if id != ps[n].id {
        assert m[id] == m0[id];
      }
    }
    forall id | exists i :: 0 <= i < |ps| && ps[i].id == id
      ensures id in m
    {
      var i :| 0 <= i < |ps| && ps[i].id == id;
      if i < n {
        assert id in m0;
      }
    }
  }

  /** The entity a cart id stands for, or None when it names nothing in the catalog. */
  function Resolve(ps: seq<Product>, id: string): Option<Target>
  {
    match VariantSearch(ps, id, 0)
    case Some(t) => Some(t)
    case None => if id in IdToIndex(ps) then Some(ProductAt(IdToIndex(ps)[id])) else None
  }

  /** Resolution, stated outright: a variant offered by a `hasVariants` product wins
      (the first such product in catalog order); otherwise the last product with
      that id; otherwise nothing. */
  lemma ResolveSpec(ps: seq<Product>, id: string)
    ensures (exists i :: 0 <= i < |ps| && OffersVariant(ps[i], id)) ==>
      && Resolve(ps, id).Some? && Resolve(ps, id).value.VariantAt?
      && OffersVariant(ps[Resolve(ps, id).value.p], id)
      && forall i :: 0 <= i < Resolve(ps, id).value.p ==> !OffersVariant(ps[i], id)
    ensures (forall i :: 0 <= i < |ps| ==> !OffersVariant(ps[i], id)) ==>
      match Resolve(ps, id)
      case Some(t) => t.ProductAt? && t.p < |ps| && ps[t.p].id == id
                      && forall i :: t.p < i < |ps| ==> ps[i].id != id
      case None => forall i :: 0 <= i < |ps| ==> ps[i].id != id
  {
    var v := VariantSearch(ps, id, 0);
    if v.None? && id !in IdToIndex(ps) {
      assert forall i :: 0 <= i < |ps| ==> ps[i].id != id;
    }
  }

  /** A resolved target lies inside the catalog and carries the id asked for. */
  lemma ResolvedValid(ps: seq<Product>, id: string)
    ensures Resolve(ps, id).Some? ==> ValidTarget(ps, Resolve(ps, id).value) && IdOf(ps, Resolve(ps, id).value) == id
  {
  }

  /** A resolved target carries the id it was resolved from, so two different ids
      never resolve to the same entity. */
  lemma ResolveInjective(ps: seq<Product>, a: string, b: string)
    requires Resolve(ps, a).Some? && Resolve(ps, a) == Resolve(ps, b)
    ensures a == b
  {
    ResolvedValid(ps, a);
    ResolvedValid(ps, b);
  }

  // ---------------------------------------------------------------------
  // Stock updates
  // ---------------------------------------------------------------------

  /** Setting one target's stock changes that stock and nothing else. */
  lemma SetStockEffect(ps: seq<Product>, t: Target, v: int, u: Target)
    requires ValidTarget(ps, t)
    ensures SameButStocks(ps, SetStock(ps, t, v))
    ensures StockAt(SetStock(ps, t, v), u) == if u == t then Some(v) else StockAt(ps, u)
  {
    var qs := SetStock(ps, t, v);
    match t
    case ProductAt(i) =>
      assert SameButStock(ps[i], qs[i]);
    case VariantAt(i, j) =>
      assert SameButStock(ps[i], qs[i]);
  }

  /** Catalogs that differ only in stock agree on every position and id. */
  lemma SameButStocksKeepsShape(ps: seq<Product>, qs: seq<Product>)
    requires SameButStocks(ps, qs)
    ensures forall t :: ValidTarget(ps, t) <==> ValidTarget(qs, t)
    ensures forall t | ValidTarget(ps, t) :: IdOf(ps, t) == IdOf(qs, t)
  {
    assert forall i :: 0 <= i < |ps| ==> ps[i].id == qs[i].id && |ps[i].variants| == |qs[i].variants|;
    assert forall i, j :: 0 <= i < |ps| && 0 <= j < |ps[i].variants| ==> ps[i].variants[j].id == qs[i].variants[j].id;
  }

  lemma SameButStocksKeepsIds(ps: seq<Product>, qs: seq<Product>)
    requires SameButStocks(ps, qs)
    ensures UniqueIds(ps) <==> UniqueIds(qs)
  {
    assert forall i :: 0 <= i < |ps| ==> ps[i].id == qs[i].id && |ps[i].variants| == |qs[i].variants|;
    assert forall i, j :: 0 <= i < |ps| && 0 <= j < |ps[i].variants| ==> ps[i].variants[j].id == qs[i].variants[j].id;
  }

  lemma SameButStocksTrans(ps: seq<Product>, qs: seq<Product>, rs: seq<Product>)
    requires SameButStocks(ps, qs) && SameButStocks(qs, rs)
    ensures SameButStocks(ps, rs)
  {
    forall i | 0 <= i < |ps| ensures SameButStock(ps[i], rs[i]) {
      assert SameButStock(ps[i], qs[i]) && SameButStock(qs[i], rs[i]);
      forall j | 0 <= j < |ps[i].variants|
        ensures ps[i].variants[j].(stock := rs[i].variants[j].stock) == rs[i].variants[j]
      {
        assert ps[i].variants[j].(stock := qs[i].variants[j].stock) == qs[i].variants[j];
      }
    }
  }
}
