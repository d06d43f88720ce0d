/**
 * The cart of an order submission and its aggregation into the `requested`
 * table (id -> summed quantity) that the stock engine validates against.
 * A cart line is one parsed JSON item of the `cart` form field.
 */
module Cart {
  import opened Wrappers

  /** What `Number(...)` makes of a line's `qty` or `quantity` field. */
  datatype QtyField =
    | Absent            // undefined, null, false or "": falsy
    | Numeric(n: int)   // a number n, or true for 1 (falsy when n == 0)
    | ZeroText          // a non-empty string whose Number() is 0, such as "0": truthy
    | NotNumeric        // a truthy value whose Number() is NaN or infinite

  /** One cart item; "" stands for a missing id field. `datasetId` is `item.el.dataset.id`. */
  datatype CartLine = CartLine(
    id: string,
    productId: string,
    datasetId: string,
    qty: QtyField,
    quantity: QtyField)

  predicate Truthy(f: QtyField)
  {
    (f.Numeric? && f.n != 0) || f.ZeroText? || f.NotNumeric?
  }

  /** `item.id || item.productId || item.el.dataset.id` */
  function LineId(l: CartLine): (r: string)
    ensures r == "" <==> l.id == "" && l.productId == "" && l.datasetId == ""
    ensures l.id != "" ==> r == l.id
    ensures l.id == "" && l.productId != "" ==> r == l.productId
    ensures r == l.id || r == l.productId || r == l.datasetId
  {
    if l.id != "" then l.id else if l.productId != "" then l.productId else l.datasetId
  }

  /** `Number(item.qty || item.quantity || 0)`, or None when that is not finite. */
  function LineQty(l: CartLine): (r: Option<int>)
    ensures r.None? <==> l.qty.NotNumeric? || (!Truthy(l.qty) && l.quantity.NotNumeric?)
    ensures Truthy(l.qty) && l.qty.Numeric? ==> r == Some(l.qty.n)
    ensures !Truthy(l.qty) && Truthy(l.quantity) && l.quantity.Numeric? ==> r == Some(l.quantity.n)
    ensures l.qty.ZeroText? || (!Truthy(l.qty) && (l.quantity.ZeroText? || !Truthy(l.quantity))) ==> r == Some(0)
  {
    var f := if Truthy(l.qty) then l.qty else if Truthy(l.quantity) then l.quantity else Numeric(0);
    match f
    case Numeric(n) => Some(n)
    case ZeroText => Some(0)
    case _ => None
  }

  /** A line contributes to `requested` when it has an id and a finite quantity. */
  predicate Counts(l: CartLine)
  {
    LineId(l) != "" && LineQty(l).Some?
  }

  /** The summed quantity of the counted lines whose id is `id`. */
  function Requested(cart: seq<CartLine>, id: string): int
  {
    if cart == [] then 0
    else
      var l := cart[|cart| - 1];
      Requested(cart[..|cart| - 1], id) + (if Counts(l) && LineId(l) == id then LineQty(l).value else 0)
  }

  /** The ids of counted lines, each once, in order of first occurrence. */
  function KeyOrder(cart: seq<CartLine>): seq<string>
  {
    if cart == [] then []
    else
      var prev := KeyOrder(cart[..|cart| - 1]);
      var l := cart[|cart| - 1];
      if Counts(l) && LineId(l) !in prev then prev + [LineId(l)] else prev
  }

  predicate Distinct(keys: seq<string>)
  {
    forall i, j :: 0 <= i < j < |keys| ==> keys[i] != keys[j]
  }

  /** The `requested` table: each counted id with its summed quantity. */
  function RequestedMap(cart: seq<CartLine>): map<string, int>
  {
    map k | k in KeyOrder(cart) :: Requested(cart, k)
  }

  /** The `forEach` that folds the cart into `requested` (keys in insertion order). */
  method Aggregate(cart: seq<CartLine>) returns (keys: seq<string>, requested: map<string, int>)
    ensures keys == KeyOrder(cart)
    ensures forall k :: k in requested <==> k in keys
    ensures forall k | k in requested :: requested[k] == Requested(cart, k)
    ensures requested == RequestedMap(cart)
  {
    keys, requested := [], map[];
    for i := 0 to |cart|
      invariant keys == KeyOrder(cart[..i])
      invariant requested == RequestedMap(cart[..i])
    {
      var id := LineId(cart[i]);
      var qty := LineQty(cart[i]);
      if id != "" && qty.Some? {
        if id in requested {
          TallyAdd(cart, i);
          requested := requested[id := requested[id] + qty.value];
        } else {
          TallyNew(cart, i);
          keys := keys + [id];
          requested := requested[id := qty.value];
        }
      } else {
        TallySkip(cart, i);
      }
    }
    assert cart[..|cart|] == cart;
  }

  lemma {:induction false} KeyOrderStep(c: seq<CartLine>, l: CartLine)
    ensures KeyOrder(c + [l]) ==
      if Counts(l) && LineId(l) !in KeyOrder(c) then KeyOrder(c) + [LineId(l)] else KeyOrder(c)
  {
    assert (c + [l])[..|c|] == c;
  }

  lemma {:induction false} RequestedStep(c: seq<CartLine>, l: CartLine, k: string)
    ensures Requested(c + [l], k) == Requested(c, k) + (if Counts(l) && LineId(l) == k then LineQty(l).value else 0)
  {
    assert (c + [l])[..|c|] == c;
  }

  /** A line that is not counted changes neither the key order nor the table. */
  lemma {:induction false} TallySkip(cart: seq<CartLine>, i: nat)
    requires i < |cart| && !Counts(cart[i])
    ensures KeyOrder(cart[..i + 1]) == KeyOrder(cart[..i])
    ensures RequestedMap(cart[..i + 1]) == RequestedMap(cart[..i])
  {
    var c, l := cart[..i], cart[i];
    assert cart[..i + 1] == c + [l];
    KeyOrderStep(c, l);
    forall k
      ensures Requested(c + [l], k) == Requested(c, k)
    {
      RequestedStep(c, l, k);
    }
    assert RequestedMap(c + [l]).Keys == RequestedMap(c).Keys;
  }

  /** A counted line whose id is already a key adds its quantity to that key's entry. */
  lemma {:induction false} TallyAdd(cart: seq<CartLine>, i: nat)
    requires i < |cart| && Counts(cart[i]) && LineId(cart[i]) in RequestedMap(cart[..i])
    ensures KeyOrder(cart[..i + 1]) == KeyOrder(cart[..i])
    ensures var id, m := LineId(cart[i]), RequestedMap(cart[..i]);
      RequestedMap(cart[..i + 1]) == m[id := m[id] + LineQty(cart[i]).value]
  {
    var c, l := cart[..i], cart[i];
    assert cart[..i + 1] == c + [l];
    var id, m := LineId(l), RequestedMap(c);
    KeyOrderStep(c, l);
    forall k
      ensures Requested(c + [l], k) == Requested(c, k) + (if id == k then LineQty(l).value else 0)
    {
      RequestedStep(c, l, k);
    }
    assert RequestedMap(c + [l]).Keys == m.Keys;
  }

  /** A counted line with a new id appends the id to the key order and enters its
      quantity (the sum so far being zero). */
  lemma {:induction false} TallyNew(cart: seq<CartLine>, i: nat)
    requires i < |cart| && Counts(cart[i]) && LineId(cart[i]) !in RequestedMap(cart[..i])
    ensures KeyOrder(cart[..i + 1]) == KeyOrder(cart[..i]) + [LineId(cart[i])]
    ensures RequestedMap(cart[..i + 1]) == RequestedMap(cart[..i])[LineId(cart[i]) := LineQty(cart[i]).value]
  {
    var c, l := cart[..i], cart[i];
    assert cart[..i + 1] == c + [l];
    var id, m := LineId(l), RequestedMap(c);
    KeyOrderStep(c, l);
    KeyOrderExact(c, id);
    RequestedAbsent(c, id);
    forall k
      ensures Requested(c + [l], k) == Requested(c, k) + (if id == k then LineQty(l).value else 0)
    {
      RequestedStep(c, l, k);
    }
    assert RequestedMap(c + [l]).Keys == m.Keys + {id};
  }

  /** The key order lists each counted id exactly once, and nothing else. */
  lemma {:induction false} KeyOrderExact(cart: seq<CartLine>, k: string)
    ensures Distinct(KeyOrder(cart))
    ensures k in KeyOrder(cart) <==> exists i :: 0 <= i < |cart| && Counts(cart[i]) && LineId(cart[i]) == k
  {
    if cart != [] {
      var init := cart[..|cart| - 1];
      KeyOrderExact(init, k);
      if k in KeyOrder(init) {
        var i :| 0 <= i < |init| && Counts(init[i]) && LineId(init[i]) == k;
        assert cart[i] == init[i];
      }
      if exists i :: 0 <= i < |cart| && Counts(cart[i]) && LineId(cart[i]) == k {
        var i :| 0 <= i < |cart| && Counts(cart[i]) && LineId(cart[i]) == k;
        if i < |init| {
          assert init[i] == cart[i];
        }
      }
    }
  }

  /** An id on no counted line is requested zero times. */
  lemma {:induction false} RequestedAbsent(cart: seq<CartLine>, id: string)
    requires forall i :: 0 <= i < |cart| && Counts(cart[i]) ==> LineId(cart[i]) != id
    ensures Requested(cart, id) == 0
  {
    if cart != [] {
      RequestedAbsent(cart[..|cart| - 1], id);
    }
  }

  /** Quantities add up across two parts of a cart: splitting a demand over
      several lines never lowers the total the stock check sees. */
  lemma {:induction false} RequestedConcat(a: seq<CartLine>, b: seq<CartLine>, id: string)
    ensures Requested(a + b, id) == Requested(a, id) + Requested(b, id)
  {
    if b != [] {
      var b' := b[..|b| - 1];
      RequestedConcat(a, b', id);
      assert (a + b)[..|a + b| - 1] == a + b';
    } else {
      assert a + b == a;
    }
  }

  /** The totals do not depend on the order in which the lines come. */
  lemma RequestedSwap(a: seq<CartLine>, b: seq<CartLine>, id: string)
    ensures Requested(a + b, id) == Requested(b + a, id)
  {
    RequestedConcat(a, b, id);
    RequestedConcat(b, a, id);
  }
}
