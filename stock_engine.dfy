/**
 * The stock engine of an order submission, as specification: the check of
 * each requested id against the stock of the entity it resolves to, the first
 * failing id in `requested` order, and the catalog after every resolved
 * finite-stock entity has been written `max(0, stock - qty)`.
 */
module StockEngine {
  import opened Wrappers
  import opened Basics
  import opened Products

  /** `Insufficient stock for <title>. Available: <available>.` */
  datatype StockError = InsufficientStock(title: string, available: int)

  /** What the stock engine does with a cart: decrement it all, or reject it all. */
  datatype StockOutcome = Committed | Rejected(error: StockError)

  /** The verdict on one requested id: an error only when it resolves to an entity
      with finite stock below the quantity asked for. */
  function ShortageOf(ps: seq<Product>, id: string, qty: int): Option<StockError>
  {
    match Resolve(ps, id)
    case None => None
    case Some(t) =>
      match StockAt(ps, t)
      case None => None
      case Some(s) => if qty > s then Some(InsufficientStock(DisplayTitle(ps, t), s)) else None
  }

  predicate Covers(keys: seq<string>, req: map<string, int>)
  {
    forall k | k in keys :: k in req
  }

  /** The error of the first id, in `requested` order, that fails its check. */
  function FirstShortage(ps: seq<Product>, keys: seq<string>, req: map<string, int>): Option<StockError>
    requires Covers(keys, req)
  {
    if keys == [] then None
    else
      match FirstShortage(ps, keys[..|keys| - 1], req)
      case Some(e) => Some(e)
      case None => ShortageOf(ps, keys[|keys| - 1], req[keys[|keys| - 1]])
  }

  /** Once some prefix of the ids has failed, the first failure stays the same
      however many ids follow. */
  lemma {:induction false} FirstShortagePrefix(ps: seq<Product>, keys: seq<string>, req: map<string, int>, n: nat)
    requires Covers(keys, req) && n <= |keys|
    requires FirstShortage(ps, keys[..n], req).Some?
    ensures FirstShortage(ps, keys, req) == FirstShortage(ps, keys[..n], req)
    decreases |keys| - n
  {
    if n < |keys| {
      var init := keys[..|keys| - 1];
      assert init[..n] == keys[..n];
      FirstShortagePrefix(ps, init, req, n);
    } else {
      assert keys[..n] == keys;
    }
  }

  /** The catalog after the decrement loop: each id in turn, resolved against the
      snapshot `ps0`, has its entity's stock written from the snapshot's value. */
  function Decremented(ps0: seq<Product>, keys: seq<string>, req: map<string, int>): seq<Product>
    requires Covers(keys, req)
  {
    if keys == [] then ps0
    else
      var prev := Decremented(ps0, keys[..|keys| - 1], req);
      var k := keys[|keys| - 1];
      match Resolve(ps0, k)
      case None => prev
      case Some(t) =>
        match StockAt(ps0, t)
        case None => prev
        case Some(s) => SetStock(prev, t, Max(0, s - req[k]))
  }

  /** The stock an entity ends with: `max(0, stock - qty)` if its own id was requested
      and resolves to it and its stock is finite, its old stock otherwise. */
  function NewStock(ps0: seq<Product>, keys: seq<string>, req: map<string, int>, t: Target): Option<int>
    requires Covers(keys, req) && ValidTarget(ps0, t)
  {
    var id := IdOf(ps0, t);
    if id in keys && Resolve(ps0, id) == Some(t) && StockAt(ps0, t).Some?
    then Some(Max(0, StockAt(ps0, t).value - req[id]))
    else StockAt(ps0, t)
  }

  /** Validation passes exactly when every requested id passes its own check; when it
      fails, the error is that of some requested id, and every id before it passed. */
  lemma FirstShortageSpec(ps: seq<Product>, keys: seq<string>, req: map<string, int>)
    requires Covers(keys, req)
    ensures FirstShortage(ps, keys, req).None? <==>
      forall i :: 0 <= i < |keys| ==> ShortageOf(ps, keys[i], req[keys[i]]).None?
    ensures FirstShortage(ps, keys, req).Some? ==>
      exists i :: 0 <= i < |keys| && ShortageOf(ps, keys[i], req[keys[i]]) == FirstShortage(ps, keys, req)
        && forall j :: 0 <= j < i ==> ShortageOf(ps, keys[j], req[keys[j]]).None?
  {
    if FirstShortage(ps, keys, req).None? {
      FirstShortagePasses(ps, keys, req);
    } else {
      FirstShortageFound(ps, keys, req);
    }
  }

  /** When validation passes, every requested id passed its own check. */
  lemma {:induction false} FirstShortagePasses(ps: seq<Product>, keys: seq<string>, req: map<string, int>)
    requires Covers(keys, req) && FirstShortage(ps, keys, req).None?
    ensures forall i :: 0 <= i < |keys| ==> ShortageOf(ps, keys[i], req[keys[i]]).None?
  {
    if keys != [] {
      var init, n := keys[..|keys| - 1], |keys| - 1;
      assert FirstShortage(ps, init, req).None? && ShortageOf(ps, keys[n], req[keys[n]]).None?;
      FirstShortagePasses(ps, init, req);
      forall i | 0 <= i < |keys|
        ensures ShortageOf(ps, keys[i], req[keys[i]]).None?
      {
        if i < n {
          assert keys[i] == init[i];
        }
      }
    }
  }

  /** When validation fails, its error is that of some requested id, and every id
      before it passed. */
  lemma {:induction false} FirstShortageFound(ps: seq<Product>, keys: seq<string>, req: map<string, int>)
    requires Covers(keys, req) && FirstShortage(ps, keys, req).Some?
    ensures exists i :: 0 <= i < |keys| && ShortageOf(ps, keys[i], req[keys[i]]) == FirstShortage(ps, keys, req)
                        && forall j :: 0 <= j < i ==> ShortageOf(ps, keys[j], req[keys[j]]).None?
  {
    if keys != [] {
      var init, n := keys[..|keys| - 1], |keys| - 1;
      if FirstShortage(ps, init, req).Some? {
        assert FirstShortage(ps, keys, req) == FirstShortage(ps, init, req);
        FirstShortageFound(ps, init, req);
        var i :| 0 <= i < |init| && ShortageOf(ps, init[i], req[init[i]]) == FirstShortage(ps, init, req)
          && forall j :: 0 <= j < i ==> ShortageOf(ps, init[j], req[init[j]]).None?;
        assert keys[i] == init[i];
        forall j | 0 <= j < i
          ensures ShortageOf(ps, keys[j], req[keys[j]]).None?
        {
          assert keys[j] == init[j];
        }
      } else {
        assert FirstShortage(ps, keys, req) == ShortageOf(ps, keys[n], req[keys[n]]);
        FirstShortagePasses(ps, init, req);
        forall j | 0 <= j < n
          ensures ShortageOf(ps, keys[j], req[keys[j]]).None?
        {
          assert keys[j] == init[j];
        }
      }
    }
  }

  /** A rejection names an entity whose finite stock is below the requested quantity:
      unresolved ids and entities without finite stock never reject a cart. */
  lemma ShortageMeans(ps: seq<Product>, id: string, qty: int)
    ensures ShortageOf(ps, id, qty).Some? <==>
      Resolve(ps, id).Some? && StockAt(ps, Resolve(ps, id).value).Some?
      && qty > StockAt(ps, Resolve(ps, id).value).value
    ensures ShortageOf(ps, id, qty).Some? ==>
      var t := Resolve(ps, id).value;
      ValidTarget(ps, t) && IdOf(ps, t) == id
      && ShortageOf(ps, id, qty) == Some(InsufficientStock(DisplayTitle(ps, t), StockAt(ps, t).value))
  {
    ResolveSpec(ps, id);
    ResolvedValid(ps, id);
  }

  /** The decrement loop changes stock values only: ids, names, flags, prices and
      the shape of the catalog stay as they were. */
  lemma {:induction false} DecrementedShape(ps0: seq<Product>, keys: seq<string>, req: map<string, int>)
    requires Covers(keys, req)
    ensures SameButStocks(ps0, Decremented(ps0, keys, req))
  {
    if keys == [] {
      forall i | 0 <= i < |ps0| ensures SameButStock(ps0[i], ps0[i]) {
        assert forall j :: 0 <= j < |ps0[i].variants| ==>
          ps0[i].variants[j].(stock := ps0[i].variants[j].stock) == ps0[i].variants[j];
      }
    } else {
      var init := keys[..|keys| - 1];
      var k := keys[|keys| - 1];
      var prev := Decremented(ps0, init, req);
      DecrementedShape(ps0, init, req);
      match Resolve(ps0, k)
      case None =>
      case Some(u) =>
        match StockAt(ps0, u)
        case None =>
        case Some(s) =>
          ResolvedValid(ps0, k);
          SameButStocksKeepsShape(ps0, prev);
          SetStockEffect(prev, u, Max(0, s - req[k]), u);
          SameButStocksTrans(ps0, prev, SetStock(prev, u, Max(0, s - req[k])));
    }
  }

  lemma {:induction false} WriteAfterDecrements(ps0: seq<Product>, keys: seq<string>, req: map<string, int>, u: Target, v: int, t: Target)
    requires Covers(keys, req) && ValidTarget(ps0, u)
    ensures StockAt(SetStock(Decremented(ps0, keys, req), u, v), t) ==
      if u == t then Some(v) else StockAt(Decremented(ps0, keys, req), t)
  {
    DecrementedShape(ps0, keys, req);
    SameButStocksKeepsShape(ps0, Decremented(ps0, keys, req));
    SetStockEffect(Decremented(ps0, keys, req), u, v, t);
  }

  lemma {:induction false} NewStockStep(ps0: seq<Product>, keys: seq<string>, req: map<string, int>, t: Target)
    requires Covers(keys, req) && keys != [] && ValidTarget(ps0, t)
    ensures var k := keys[|keys| - 1];
      NewStock(ps0, keys, req, t) ==
        if Resolve(ps0, k) == Some(t) && StockAt(ps0, t).Some?
        then Some(Max(0, StockAt(ps0, t).value - req[k]))
        else NewStock(ps0, keys[..|keys| - 1], req, t)
  {
    var init := keys[..|keys| - 1];
    var k := keys[|keys| - 1];
    assert forall x :: x in keys <==> x in init || x == k;
    ResolvedValid(ps0, k);
  }

  /** The last requested id resolves to an entity with finite stock: the loop writes
      that entity's decremented stock over the earlier writes. */
  lemma {:induction false} DecrementedWrites(ps0: seq<Product>, keys: seq<string>, req: map<string, int>, t: Target)
    requires Covers(keys, req) && keys != [] && ValidTarget(ps0, t)
    requires var r := Resolve(ps0, keys[|keys| - 1]); r.Some? && StockAt(ps0, r.value).Some?
    ensures var k := keys[|keys| - 1];
      var u := Resolve(ps0, k).value;
      StockAt(Decremented(ps0, keys, req), t) ==
        if u == t then Some(Max(0, StockAt(ps0, u).value - req[k]))
        else StockAt(Decremented(ps0, keys[..|keys| - 1], req), t)
  {
    var init := keys[..|keys| - 1];
    var k := keys[|keys| - 1];
    var u := Resolve(ps0, k).value;
    var v := Max(0, StockAt(ps0, u).value - req[k]);
    assert Decremented(ps0, keys, req) == SetStock(Decremented(ps0, init, req), u, v);
    ResolvedValid(ps0, k);
    WriteAfterDecrements(ps0, init, req, u, v, t);
  }

  /** One step of the decrement loop, seen from one entity: it is written when the
      last id resolves to it and its snapshot stock is finite, and kept otherwise. */
  lemma {:induction false} DecrementedStep(ps0: seq<Product>, keys: seq<string>, req: map<string, int>, t: Target)
    requires Covers(keys, req) && keys != [] && ValidTarget(ps0, t)
    ensures var k := keys[|keys| - 1];
      StockAt(Decremented(ps0, keys, req), t) ==
        if Resolve(ps0, k) == Some(t) && StockAt(ps0, t).Some?
        then Some(Max(0, StockAt(ps0, t).value - req[k]))
        else StockAt(Decremented(ps0, keys[..|keys| - 1], req), t)
  {
    var r := Resolve(ps0, keys[|keys| - 1]);
    if r.Some? && StockAt(ps0, r.value).Some? {
      DecrementedWrites(ps0, keys, req, t);
    } else {
      assert Decremented(ps0, keys, req) == Decremented(ps0, keys[..|keys| - 1], req);
    }
  }

  /** The decrement loop's state after one more requested id, for the loop in
      `Catalog.WriteDecrements`. */
  lemma {:induction false} DecrementedNext(ps0: seq<Product>, keys: seq<string>, req: map<string, int>, i: nat)
    requires Covers(keys, req) && i < |keys|
    ensures Covers(keys[..i], req) && Covers(keys[..i + 1], req)
    ensures var r := Resolve(ps0, keys[i]);
      Decremented(ps0, keys[..i + 1], req) ==
        if r.Some? && StockAt(ps0, r.value).Some?
        then SetStock(Decremented(ps0, keys[..i], req), r.value, Max(0, StockAt(ps0, r.value).value - req[keys[i]]))
        else Decremented(ps0, keys[..i], req)
  {
    assert keys[..i + 1][..i] == keys[..i];
  }

  /** Every entity's stock after the decrement loop is exactly `NewStock`: the
      requested ones are decremented and no other entity is touched. */
  lemma {:induction false} DecrementedStockAt(ps0: seq<Product>, keys: seq<string>, req: map<string, int>, t: Target)
    requires Covers(keys, req) && ValidTarget(ps0, t)
    ensures StockAt(Decremented(ps0, keys, req), t) == NewStock(ps0, keys, req, t)
  {
    if keys != [] {
      DecrementedStockAt(ps0, keys[..|keys| - 1], req, t);
      NewStockStep(ps0, keys, req, t);
      DecrementedStep(ps0, keys, req, t);
    }
  }

  /** After a cart that passed validation, every written stock is exactly
      `stock - qty` and never negative: the clamp at zero never fires. */
  lemma {:induction false} CommitIsExact(ps0: seq<Product>, keys: seq<string>, req: map<string, int>, i: nat)
    requires Covers(keys, req) && i < |keys|
    requires FirstShortage(ps0, keys, req).None?
    requires Resolve(ps0, keys[i]).Some? && StockAt(ps0, Resolve(ps0, keys[i]).value).Some?
    ensures var t := Resolve(ps0, keys[i]).value;
      var s := StockAt(ps0, t).value;
      StockAt(Decremented(ps0, keys, req), t) == Some(s - req[keys[i]]) && s - req[keys[i]] >= 0
  {
    var t := Resolve(ps0, keys[i]).value;
    FirstShortageSpec(ps0, keys, req);
    ResolveSpec(ps0, keys[i]);
    ResolvedValid(ps0, keys[i]);
    DecrementedAtRequested(ps0, keys, req, keys[i], t);
    assert ShortageOf(ps0, keys[i], req[keys[i]]).None?;
  }

  /** A requested quantity that is negative raises the stock it resolves to: the
      validation `qty > stock` lets it through and `max(0, stock - qty)` adds it. */
  lemma {:induction false} NegativeQuantityRaisesStock(ps0: seq<Product>, keys: seq<string>, req: map<string, int>,
                                                       id: string, t: Target)
    requires Covers(keys, req) && id in keys && req[id] < 0
    requires Resolve(ps0, id) == Some(t) && StockAt(ps0, t).Some? && StockAt(ps0, t).value >= 0
    ensures StockAt(Decremented(ps0, keys, req), t) == Some(StockAt(ps0, t).value - req[id])
    ensures StockAt(ps0, t).value - req[id] > StockAt(ps0, t).value
  {
    DecrementedAtRequested(ps0, keys, req, id, t);
  }

  /** The stock of an entity a requested id resolves to, after the decrement loop. */
  lemma {:induction false} DecrementedAtRequested(ps0: seq<Product>, keys: seq<string>, req: map<string, int>, id: string, t: Target)
    requires Covers(keys, req) && id in keys && Resolve(ps0, id) == Some(t) && StockAt(ps0, t).Some?
    ensures StockAt(Decremented(ps0, keys, req), t) == Some(Max(0, StockAt(ps0, t).value - req[id]))
    ensures req[id] <= StockAt(ps0, t).value ==>
      StockAt(Decremented(ps0, keys, req), t) == Some(StockAt(ps0, t).value - req[id])
  {
    ResolvedValid(ps0, id);
    DecrementedStockAt(ps0, keys, req, t);
    assert NewStock(ps0, keys, req, t) == Some(Max(0, StockAt(ps0, t).value - req[id]));
  }

  /** One iteration's resolution of a requested id: the `for...of` scan over the
      catalog for a variant with this id (stopping at the first product that has one),
      then the `idToIndex` lookup for a product. */
  method Locate(catalog: seq<Product>, idToIndex: map<string, nat>, id: string) returns (t: Option<Target>)
    requires idToIndex == IdToIndex(catalog)
    ensures t == Resolve(catalog, id)
  {
    t := None;
    var i := 0;
    while i < |catalog| && t.None?
      invariant 0 <= i <= |catalog|
      invariant t.None? ==> VariantSearch(catalog, id, 0) == VariantSearch(catalog, id, i)
      invariant t.Some? ==> t == VariantSearch(catalog, id, 0)
    {
      if catalog[i].hasVariants {
        var found := FindVariant(catalog[i].variants, id);
        if found.Some? {
          t := Some(VariantAt(i, found.value));
        }
      }
      i := i + 1;
    }
    if t.None? && id in idToIndex {
      t := Some(ProductAt(idToIndex[id]));
    }
  }
  /** The body of one validation iteration: the stock and display title of the
      resolved entity, and the insufficient-stock error when `qty` exceeds it. */
  method CheckOne(catalog: seq<Product>, idToIndex: map<string, nat>, id: string, qty: int)
    returns (err: Option<StockError>)
    requires idToIndex == IdToIndex(catalog)
    ensures err == ShortageOf(catalog, id, qty)
  {
    var t := Locate(catalog, idToIndex, id);
    ResolvedValid(catalog, id);
    err := None;
    if t.Some? {
      var stock: Option<int>;
      var title: string;
      match t.value {
        case VariantAt(p, v) =>
          stock := catalog[p].variants[v].stock;
          title := catalog[p].title + " - " + catalog[p].variants[v].name;
        case ProductAt(p) =>
          stock := catalog[p].stock;
          title := catalog[p].title;
      }
      if stock.Some? && qty > stock.value {
        err := Some(InsufficientStock(title, stock.value));
      }
    }
  }

  /** The validation loop: every requested id is checked, in `requested` order,
      before anything is written; the first failure ends the loop. */
  method Validate(catalog: seq<Product>, idToIndex: map<string, nat>, keys: seq<string>, requested: map<string, int>)
    returns (err: Option<StockError>)
    requires idToIndex == IdToIndex(catalog) && Covers(keys, requested)
    ensures err == FirstShortage(catalog, keys, requested)
  {
    for i := 0 to |keys|
      invariant FirstShortage(catalog, keys[..i], requested).None?
    {
      assert keys[..i + 1][..i] == keys[..i];
      err := CheckOne(catalog, idToIndex, keys[i], requested[keys[i]]);
      if err.Some? {
        FirstShortagePrefix(catalog, keys, requested, i + 1);
        return;
      }
    }
    assert keys[..|keys|] == keys;
    err := None;
  }
}
