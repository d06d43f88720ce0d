/**
 * The `orders` table: rows keyed by order id, the count behind
 * `generateOrderId`, and the INSERT of a submitted order.
 */
module OrderLedger {
  import opened Cart
  import opened Text
  import opened OrderIds

  /** A row of `orders`, without the money columns, the upload file names and the
      timestamps. `status` starts as "pending". */
  datatype OrderRow = OrderRow(
    id: string,
    customerName: string,
    customerEmail: string,
    customerPhone: string,
    customerAddress: string,
    customerInstagram: string,
    customerNotes: string,
    deliveryDate: string,
    cartItems: seq<CartLine>,
    status: string)

  function IdsOf(rows: seq<OrderRow>): (ids: seq<string>)
    ensures |ids| == |rows| && forall i :: 0 <= i < |rows| ==> ids[i] == rows[i].id
  {
    seq(|rows|, i requires 0 <= i < |rows| => rows[i].id)
  }

  predicate DistinctIds(rows: seq<OrderRow>)
  {
    forall i, j :: 0 <= i < j < |rows| ==> rows[i].id != rows[j].id
  }

  class Ledger {
    var orders: seq<OrderRow>
    /** The prefix each stored id was generated from. */
    ghost var prefixes: seq<string>

    /** `id` is the primary key. */
    ghost predicate Valid()
      reads this
    {
      DistinctIds(orders)
    }

    /** Every stored id came from `generateOrderId` against the rows before it. */
    ghost predicate Generated()
      reads this
    {
      GeneratedWith(IdsOf(orders), prefixes)
    }

    function Ids(): seq<string>
      reads this
    {
      IdsOf(orders)
    }

    constructor ()
      ensures orders == [] && prefixes == []
      ensures Valid() && Generated()
    {
      orders := [];
      prefixes := [];
    }

    /** `SELECT COUNT(*) FROM orders WHERE id LIKE '<prefix>%'`, one row at a time. */
    method CountLike(prefix: string) returns (n: nat)
      ensures n == MatchCount(Ids(), prefix)
      ensures n <= |orders|
    {
      ghost var ids := Ids();
      n := 0;
      for i := 0 to |orders|
        invariant n == MatchCount(ids[..i], prefix)
      {
        assert ids[..i + 1][..i] == ids[..i];
        if LikeMatch(orders[i].id, prefix + "%") {
          n := n + 1;
        }
      }
      assert ids[..|orders|] == ids;
      MatchCountGrows(ids, prefix, 0);
    }

    /** `generateOrderId(firstName)`. */
    method GenerateOrderId(firstName: string) returns (id: string)
      ensures id == NextOrderId(Ids(), firstName)
    {
      var prefix := Prefix(firstName);
      var count := CountLike(prefix);
      id := prefix + PadStart3(Digits(count + 1));
    }

    /** The INSERT of an order row: refused when the id is already a key or when the
        store fails (`storageFails`), in which case nothing is stored. */
    method Insert(row: OrderRow, ghost prefix: string, storageFails: bool) returns (ok: bool)
      modifies this
      ensures ok <==> !storageFails && row.id !in old(Ids())
      ensures ok ==> orders == old(orders) + [row] && prefixes == old(prefixes) + [prefix]
      ensures !ok ==> orders == old(orders) && prefixes == old(prefixes)
      ensures old(Valid()) ==> Valid()
      ensures old(Generated()) && row.id == OrderId(prefix, MatchCount(old(Ids()), prefix)) ==> Generated()
    {
      if storageFails || row.id in Ids() {
        return false;
      }
      ghost var ids := Ids();
      if Generated() && row.id == OrderId(prefix, MatchCount(ids, prefix)) {
        GeneratedExtend(ids, prefixes, prefix);
      }
      orders := orders + [row];
      prefixes := prefixes + [prefix];
      assert Ids() == ids + [row.id];
      ok := true;
    }
  }

  /** While fewer than 999 orders are stored, the id generated for the next order is
      never already taken in a ledger filled by order submissions. */
  lemma LedgerNextIdFresh(l: Ledger, firstName: string)
    requires l.Generated() && |l.orders| < 999
    ensures NextOrderId(l.Ids(), firstName) !in l.Ids()
  {
    NextIdFresh(l.Ids(), l.prefixes, Prefix(firstName));
  }
}
