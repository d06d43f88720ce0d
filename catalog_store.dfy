/**
 * The products, product_images and product_variants tables, held as one
 * catalog that order submissions and the admin product routes update in
 * place: the validate-then-decrement loops of an order, and
 * `upsertProductToDb`.
 */
module CatalogStore {
  import opened Wrappers
  import opened Basics
  import opened Text
  import opened Products
  import opened StockEngine

  // ---------------------------------------------------------------------
  // Upsert specification
  // ---------------------------------------------------------------------

  /** One element of the `variants` array given to `upsertProductToDb`; "" stands for
      a missing string, None for a price or stock whose `Number()` is NaN. */
  datatype VariantInput = VariantInput(id: string, name: string, size: string, price: Option<real>, stock: Option<int>)

  /** The payload of `upsertProductToDb`. None for `additionalImages` or `variants`
      means the key was not given (`undefined`), so the stored set is kept. */
  datatype ProductInput = ProductInput(
    id: string,
    title: string,
    description: string,
    img: string,
    category: string,
    price: Option<real>,
    stock: Option<int>,
    hasVariants: bool,
    additionalImages: Option<seq<string>>,
    variants: Option<seq<VariantInput>>)

  /** Every upsert statement ran, or a variant insert hit the primary key of another row. */
  datatype UpsertOutcome = Upserted | VariantIdTaken(id: string)

  /** `v.id || `${productId}-${slug(v.name)}`` */
  function VariantIdFor(productId: string, v: VariantInput): (r: string)
    ensures v.id != "" ==> r == v.id
    ensures v.id == "" ==>
      && |r| > |productId| && r[..|productId| + 1] == productId + "-"
      && IsSlugText(r[|productId| + 1..]) && |r| <= |productId| + 1 + |v.name|
    ensures v.id == "" ==> r == productId + "-" + Slug(v.name)
  {
    SlugIsSlugText(v.name);
    if v.id != "" then v.id
    else
      var r := productId + "-" + Slug(v.name);
      assert r[|productId| + 1..] == Slug(v.name);
      r
  }

  /** The row inserted for one variant: size falls back to the name, a NaN price to 0,
      and stock is `max(0, Number(stock) || 0)`. */
  function VariantRow(productId: string, v: VariantInput): (r: Variant)
    ensures r.id == VariantIdFor(productId, v) && r.name == v.name
    ensures r.size == (if v.size != "" then v.size else v.name)
    ensures r.stock.Some? && r.stock.value >= 0
    ensures v.stock.Some? && v.stock.value >= 0 ==> r.stock == v.stock
    ensures r.price == (if v.price.Some? then v.price.value else 0.0)
    ensures v.stock.None? || v.stock.value < 0 ==> r.stock == Some(0)
  {
    Variant(
      VariantIdFor(productId, v),
      v.name,
      if v.size != "" then v.size else v.name,
      if v.price.Some? then v.price.value else 0.0,
      Some(if v.stock.Some? then Max(0, v.stock.value) else 0))
  }

  function Rows(productId: string, vs: seq<VariantInput>): seq<Variant>
  {
    seq(|vs|, j requires 0 <= j < |vs| => VariantRow(productId, vs[j]))
  }

  /** The position of the row with this id: the first match, or |ps| for a new row. */
  function RowIndex(ps: seq<Product>, id: string): (i: nat)
    ensures i <= |ps|
    ensures i < |ps| ==> ps[i].id == id
    ensures forall j :: 0 <= j < i ==> ps[j].id != id
  {
    if ps == [] || ps[0].id == id then 0 else 1 + RowIndex(ps[1..], id)
  }

  /** `INSERT ... ON CONFLICT(id) DO UPDATE`: the scalar columns of the existing row are
      replaced, or a new row without images or variants is added. */
  function UpsertRow(ps: seq<Product>, p: ProductInput): seq<Product>
  {
    var category := if p.category != "" then p.category else "cookies";
    var i := RowIndex(ps, p.id);
    if i < |ps|
    then ps[i := ps[i].(title := p.title, description := p.description, img := p.img,
                         category := category, price := p.price, stock := p.stock,
                         hasVariants := p.hasVariants)]
    else ps + [Product(p.id, p.title, p.description, p.img, category, p.price, p.stock,
                       p.hasVariants, [], [])]
  }

  function WithImages(ps: seq<Product>, i: nat, imgs: seq<string>): seq<Product>
    requires i < |ps|
  {
    ps[i := ps[i].(additionalImages := imgs)]
  }

  function WithVariants(ps: seq<Product>, i: nat, rows: seq<Variant>): seq<Product>
    requires i < |ps|
  {
    ps[i := ps[i].(variants := rows)]
  }

  /** Every variant id in the catalog: the primary keys of `product_variants`. */
  function AllVariantIds(ps: seq<Product>): set<string>
  {
    set a, b | 0 <= a < |ps| && 0 <= b < |ps[a].variants| :: ps[a].variants[b].id
  }

  /** Row `k` can be inserted once rows `..k` are in: its id is not yet taken. */
  predicate Insertable(ps: seq<Product>, i: nat, rows: seq<Variant>, k: nat)
    requires i < |ps| && k < |rows|
  {
    rows[k].id !in AllVariantIds(WithVariants(ps, i, rows[..k]))
  }

  /** The first row, from `from` on, whose insert fails; |rows| when none does. */
  function FirstClash(ps: seq<Product>, i: nat, rows: seq<Variant>, from: nat): (k: nat)
    requires i < |ps| && from <= |rows|
    decreases |rows| - from
    ensures from <= k <= |rows|
    ensures forall j :: from <= j < k ==> Insertable(ps, i, rows, j)
    ensures k < |rows| ==> !Insertable(ps, i, rows, k)
  {
    if from == |rows| then from
    else if !Insertable(ps, i, rows, from) then from
    else FirstClash(ps, i, rows, from + 1)
  }

  /** The catalog and outcome of `upsertProductToDb(p)`: row upsert, then the image
      set replaced if given, then the variant set deleted and re-inserted row by row
      if given, stopping at the first row whose id is taken. */
  function UpsertSpec(ps: seq<Product>, p: ProductInput): (seq<Product>, UpsertOutcome)
  {
    var i := RowIndex(ps, p.id);
    var ps1 := UpsertRow(ps, p);
    assert i < |ps1|;
    var ps2 := if p.additionalImages.Some? then WithImages(ps1, i, p.additionalImages.value) else ps1;
    match p.variants
    case None => (ps2, Upserted)
    case Some(vs) =>
      var rows := Rows(p.id, vs);
      var k := FirstClash(ps2, i, rows, 0);
      (WithVariants(ps2, i, rows[..k]), if k == |rows| then Upserted else VariantIdTaken(rows[k].id))
  }

  // ---------------------------------------------------------------------
  // Properties of an upsert
  // ---------------------------------------------------------------------

  /** Emptying one product's variant set keeps every key unique. */
  lemma ClearVariantsKeepsIds(ps: seq<Product>, i: nat)
    requires UniqueIds(ps) && i < |ps|
    ensures UniqueIds(WithVariants(ps, i, []))
  {
    var qs := WithVariants(ps, i, []);
    assert forall a :: 0 <= a < |qs| ==> qs[a].id == ps[a].id;
    assert forall a, x :: 0 <= a < |qs| && 0 <= x < |qs[a].variants| ==> a != i && qs[a].variants[x] == ps[a].variants[x];
  }

  /** Inserting a variant whose id is not yet a key keeps every key unique. */
  lemma AppendVariantKeepsIds(ps: seq<Product>, i: nat, row: Variant)
    requires UniqueIds(ps) && i < |ps| && row.id !in AllVariantIds(ps)
    ensures UniqueIds(WithVariants(ps, i, ps[i].variants + [row]))
  {
    var qs := WithVariants(ps, i, ps[i].variants + [row]);
    var n := |ps[i].variants|;
    assert forall a :: 0 <= a < |qs| ==> qs[a].id == ps[a].id;
    forall a, x, b, y | 0 <= a < |qs| && 0 <= b < |qs| && 0 <= x < |qs[a].variants| && 0 <= y < |qs[b].variants|
                        && qs[a].variants[x].id == qs[b].variants[y].id
      ensures a == b && x == y
    {
      var isNew1 := a == i && x == n;
      var isNew2 := b == i && y == n;
      // An old row keeps its place and id; the new row's id is no old row's id.
      if !isNew1 {
        assert qs[a].variants[x] == ps[a].variants[x];
        assert ps[a].variants[x].id in AllVariantIds(ps);
      }
      if !isNew2 {
        assert qs[b].variants[y] == ps[b].variants[y];
        assert ps[b].variants[y].id in AllVariantIds(ps);
      }
    }
  }

  /** The rows inserted before the first clash leave every key unique. */
  lemma {:induction false} InsertedRowsKeepIds(ps: seq<Product>, i: nat, rows: seq<Variant>, k: nat)
    requires UniqueIds(ps) && i < |ps| && k <= |rows|
    requires forall j :: 0 <= j < k ==> Insertable(ps, i, rows, j)
    ensures UniqueIds(WithVariants(ps, i, rows[..k]))
  {
    if k == 0 {
      assert rows[..0] == [];
      ClearVariantsKeepsIds(ps, i);
    } else {
      InsertedRowsKeepIds(ps, i, rows, k - 1);
      var qs := WithVariants(ps, i, rows[..k - 1]);
      assert Insertable(ps, i, rows, k - 1);
      AppendVariantKeepsIds(qs, i, rows[k - 1]);
      assert rows[..k] == rows[..k - 1] + [rows[k - 1]];
      assert WithVariants(qs, i, qs[i].variants + [rows[k - 1]]) == WithVariants(ps, i, rows[..k]);
    }
  }

  /** The row upsert keeps product ids unique: it updates the one row with that id
      or appends a row whose id is new. */
  lemma {:induction false} UpsertRowKeepsIds(ps: seq<Product>, p: ProductInput)
    requires UniqueIds(ps)
    ensures UniqueIds(UpsertRow(ps, p))
  {
    var qs := UpsertRow(ps, p);
    var i := RowIndex(ps, p.id);
    assert forall a :: 0 <= a < |ps| ==> qs[a].id == ps[a].id && qs[a].variants == ps[a].variants;
    if i == |ps| {
      assert qs[i].variants == [];
    }
  }

  /** An upsert keeps the primary keys of `products` and `product_variants` unique:
      a variant insert whose id is taken stops the upsert instead. */
  lemma {:induction false} UpsertKeepsUniqueIds(ps: seq<Product>, p: ProductInput)
    requires UniqueIds(ps)
    ensures UniqueIds(UpsertSpec(ps, p).0)
  {
    var i := RowIndex(ps, p.id);
    var ps1 := UpsertRow(ps, p);
    UpsertRowKeepsIds(ps, p);
    var ps2 := if p.additionalImages.Some? then WithImages(ps1, i, p.additionalImages.value) else ps1;
    assert forall a :: 0 <= a < |ps2| ==> ps2[a].id == ps1[a].id && ps2[a].variants == ps1[a].variants;
    assert UniqueIds(ps2);
    if p.variants.Some? {
      var rows := Rows(p.id, p.variants.value);
      InsertedRowsKeepIds(ps2, i, rows, FirstClash(ps2, i, rows, 0));
    }
  }

  /** The row upsert, the image replacement and the variant replacement all work on
      the row with id `p.id`: the existing one, or a new one at the end. */
  lemma UpsertSpecShape(ps: seq<Product>, p: ProductInput)
    ensures var qs := UpsertSpec(ps, p).0;
      var i := RowIndex(ps, p.id);
      && |qs| == |UpsertRow(ps, p)| && i < |qs|
      && (forall j :: 0 <= j < |qs| && j != i ==> qs[j] == UpsertRow(ps, p)[j])
      && qs[i] == UpsertRow(ps, p)[i].(additionalImages := qs[i].additionalImages, variants := qs[i].variants)
  {
  }

  /** The scalar columns: the row with id `p.id` carries the given title, description,
      image, price, stock and flag, and "cookies" for an empty category; an existing
      row keeps its position, a new one is added at the end; every other product is
      unchanged. */
  lemma UpsertRowEffect(ps: seq<Product>, p: ProductInput)
    ensures var qs := UpsertSpec(ps, p).0;
      var i := RowIndex(ps, p.id);
      var existed := exists j :: 0 <= j < |ps| && ps[j].id == p.id;
      && |qs| == (if existed then |ps| else |ps| + 1)
      && i < |qs| && (existed <==> i < |ps|)
      && qs[i].id == p.id && qs[i].title == p.title && qs[i].description == p.description
      && qs[i].img == p.img && qs[i].category == (if p.category != "" then p.category else "cookies")
      && qs[i].price == p.price && qs[i].stock == p.stock && qs[i].hasVariants == p.hasVariants
      && forall j :: 0 <= j < |ps| && j != i ==> qs[j] == ps[j]
  {
    UpsertSpecShape(ps, p);
  }

  /** The image set is replaced exactly when a list is given; otherwise an existing
      product keeps its images and a new one has none. */
  lemma UpsertImagesEffect(ps: seq<Product>, p: ProductInput)
    ensures var qs := UpsertSpec(ps, p).0;
      var i := RowIndex(ps, p.id);
      i < |qs| &&
      qs[i].additionalImages == (if p.additionalImages.Some? then p.additionalImages.value
                                 else if i < |ps| then ps[i].additionalImages else [])
  {
  }

  /** A variant insert that hits a taken key stops the upsert: the rows before it are
      in, and the outcome names its id, which the catalog already holds. */
  lemma {:induction false} UpsertClash(ps: seq<Product>, p: ProductInput)
    requires UpsertSpec(ps, p).1.VariantIdTaken?
    ensures var (qs, r) := UpsertSpec(ps, p);
      var i := RowIndex(ps, p.id);
      && p.variants.Some? && i < |qs|
      && exists k :: 0 <= k < |p.variants.value|
           && qs[i].variants == Rows(p.id, p.variants.value)[..k]
           && r.id == VariantIdFor(p.id, p.variants.value[k])
           && r.id in AllVariantIds(qs)
  {
    var i := RowIndex(ps, p.id);
    var ps1 := UpsertRow(ps, p);
    var ps2 := if p.additionalImages.Some? then WithImages(ps1, i, p.additionalImages.value) else ps1;
    var rows := Rows(p.id, p.variants.value);
    var k := FirstClash(ps2, i, rows, 0);
    var qs := WithVariants(ps2, i, rows[..k]);
    assert UpsertSpec(ps, p) == (qs, VariantIdTaken(rows[k].id));
    assert !Insertable(ps2, i, rows, k);
    assert qs[i].variants == rows[..k];
  }

  /** The variant set is kept when no list is given; otherwise it is deleted and the
      derived rows are inserted in order, all of them unless one names a variant id
      that is already a key, in which case the rows before it are in and the outcome
      names the clashing id. */
  lemma {:induction false} UpsertVariantsEffect(ps: seq<Product>, p: ProductInput)
    ensures var (qs, r) := UpsertSpec(ps, p);
      var i := RowIndex(ps, p.id);
      && i < |qs|
      && (p.variants.None? ==> r == Upserted && qs[i].variants == (if i < |ps| then ps[i].variants else []))
      && (p.variants.Some? && r == Upserted ==> qs[i].variants == Rows(p.id, p.variants.value))
      && (r.VariantIdTaken? ==>
            p.variants.Some? &&
            exists k :: 0 <= k < |p.variants.value|
              && qs[i].variants == Rows(p.id, p.variants.value)[..k]
              && r.id == VariantIdFor(p.id, p.variants.value[k])
              && r.id in AllVariantIds(qs))
  {
    if UpsertSpec(ps, p).1.VariantIdTaken? {
      UpsertClash(ps, p);
    } else if p.variants.Some? {
      UpsertAllRows(ps, p);
    } else {
      UpsertKeepsVariants(ps, p);
    }
  }

  /** No variant list: the product's variant set is left as it was. */
  lemma {:induction false} UpsertKeepsVariants(ps: seq<Product>, p: ProductInput)
    requires p.variants.None?
    ensures var (qs, r) := UpsertSpec(ps, p);
      var i := RowIndex(ps, p.id);
      && r == Upserted && i < |qs| && qs[i].variants == (if i < |ps| then ps[i].variants else [])
  {
    var i := RowIndex(ps, p.id);
    var ps1 := UpsertRow(ps, p);
    assert i < |ps1| && ps1[i].variants == (if i < |ps| then ps[i].variants else []);
  }

  /** A list that went in without a clash is the product's whole variant set. */
  lemma {:induction false} UpsertAllRows(ps: seq<Product>, p: ProductInput)
    requires p.variants.Some? && UpsertSpec(ps, p).1 == Upserted
    ensures var i := RowIndex(ps, p.id);
      i < |UpsertSpec(ps, p).0| && UpsertSpec(ps, p).0[i].variants == Rows(p.id, p.variants.value)
  {
    var i := RowIndex(ps, p.id);
    var ps1 := UpsertRow(ps, p);
    var ps2 := if p.additionalImages.Some? then WithImages(ps1, i, p.additionalImages.value) else ps1;
    var rows := Rows(p.id, p.variants.value);
    assert FirstClash(ps2, i, rows, 0) == |rows|;
    assert rows[..|rows|] == rows;
  }

  /** Replacing one product's variant set forgets whatever set it had before. */
  lemma WithVariantsTwice(ps: seq<Product>, i: nat, x: seq<Variant>, y: seq<Variant>)
    requires i < |ps|
    ensures WithVariants(WithVariants(ps, i, x), i, y) == WithVariants(ps, i, y)
  {
  }

  /** Where the variant inserts stop does not depend on the variant set being replaced. */
  lemma {:induction false} FirstClashIgnoresOldVariants(ps: seq<Product>, i: nat, x: seq<Variant>, rows: seq<Variant>, from: nat)
    requires i < |ps| && from <= |rows|
    ensures FirstClash(WithVariants(ps, i, x), i, rows, from) == FirstClash(ps, i, rows, from)
    decreases |rows| - from
  {
    if from < |rows| {
      WithVariantsTwice(ps, i, x, rows[..from]);
      assert Insertable(WithVariants(ps, i, x), i, rows, from) == Insertable(ps, i, rows, from);
      FirstClashIgnoresOldVariants(ps, i, x, rows, from + 1);
    }
  }

  /** Saving the same product twice leaves the catalog as after the first save, when
      the first save went through. */
  lemma {:induction false} UpsertIdempotent(ps: seq<Product>, p: ProductInput)
    requires UpsertSpec(ps, p).1 == Upserted
    ensures UpsertSpec(UpsertSpec(ps, p).0, p) == UpsertSpec(ps, p)
  {
    var qs := UpsertSpec(ps, p).0;
    var i := RowIndex(ps, p.id);
    var ps1 := UpsertRow(ps, p);
    var ps2 := if p.additionalImages.Some? then WithImages(ps1, i, p.additionalImages.value) else ps1;
    UpsertAgainKeepsRow(ps, p);
    if p.variants.Some? {
      var rows := Rows(p.id, p.variants.value);
      var k := FirstClash(ps2, i, rows, 0);
      assert k == |rows| && rows[..k] == rows;
      assert qs == WithVariants(ps2, i, rows);
      FirstClashIgnoresOldVariants(ps2, i, rows, rows, 0);
      WithVariantsTwice(ps2, i, rows, rows);
    }
  }

  /** After a save, saving the same product again finds its row at the same place,
      and the row upsert and image replacement change nothing. */
  lemma {:induction false} UpsertAgainKeepsRow(ps: seq<Product>, p: ProductInput)
    ensures var qs := UpsertSpec(ps, p).0;
      var i := RowIndex(ps, p.id);
      && RowIndex(qs, p.id) == i
      && UpsertRow(qs, p) == qs
      && (p.additionalImages.Some? ==> WithImages(qs, i, p.additionalImages.value) == qs)
  {
    var qs := UpsertSpec(ps, p).0;
    var i := RowIndex(ps, p.id);
    UpsertRowEffect(ps, p);
    UpsertImagesEffect(ps, p);
    RowIndexAt(qs, p.id, i);
    var category := if p.category != "" then p.category else "cookies";
    assert qs[i].(title := p.title, description := p.description, img := p.img, category := category,
                  price := p.price, stock := p.stock, hasVariants := p.hasVariants) == qs[i];
  }

  /** The row index is the first position holding the id. */
  lemma {:induction false} RowIndexAt(ps: seq<Product>, id: string, i: nat)
    requires i < |ps| && ps[i].id == id
    requires forall j :: 0 <= j < i ==> ps[j].id != id
    ensures RowIndex(ps, id) == i
  {
    if i > 0 {
      RowIndexAt(ps[1..], id, i - 1);
    }
  }

  // ---------------------------------------------------------------------
  // The catalog
  // ---------------------------------------------------------------------

  class Catalog {
    /** The products with their images and variants, in row order. */
    var products: seq<Product>

    ghost predicate Valid()
      reads this
    {
      UniqueIds(products)
    }

    constructor (ps: seq<Product>)
      ensures products == ps
    {
      products := ps;
    }

    /** The validation loop and then the decrement loop of an order submission, over
        `requested` (keys in insertion order). The catalog is read once; either some
        id fails and nothing is written, or every resolved finite stock is written. */
    method ApplyRequested(keys: seq<string>, requested: map<string, int>) returns (r: StockOutcome)
      requires Covers(keys, requested)
      modifies this
      ensures r == match FirstShortage(old(products), keys, requested)
                   case Some(e) => Rejected(e)
                   case None => Committed
      ensures r.Rejected? ==> products == old(products)
      ensures r.Committed? ==> products == Decremented(old(products), keys, requested)
      ensures old(Valid()) ==> Valid()
    {
      var catalog := products;
      var idToIndex := IdToIndex(catalog);
      // Validate stock for every requested id before writing anything.
      var err := Validate(catalog, idToIndex, keys, requested);
      if err.Some? {
        return Rejected(err.value);
      }
      WriteDecrements(idToIndex, keys, requested);
      r := Committed;
      DecrementedShape(catalog, keys, requested);
      SameButStocksKeepsIds(catalog, products);
    }

    /** The decrement loop: each resolved entity with finite stock in the snapshot
        gets `max(0, stock - qty)`, one UPDATE per requested id. */
    method WriteDecrements(idToIndex: map<string, nat>, keys: seq<string>, requested: map<string, int>)
      requires idToIndex == IdToIndex(products) && Covers(keys, requested)
      modifies this
      ensures products == Decremented(old(products), keys, requested)
    {
      var catalog := products;
      for i := 0 to |keys|
        invariant products == Decremented(catalog, keys[..i], requested)
      {
        var id := keys[i];
        DecrementedNext(catalog, keys, requested, i);
        var t := Locate(catalog, idToIndex, id);
        if t.Some? {
          var stock := StockAt(catalog, t.value);
          if stock.Some? {
            // UPDATE product_variants / products SET stock = ? WHERE id = ?
            products := SetStock(products, t.value, Max(0, stock.value - requested[id]));
          }
        }
      }
      assert keys[..|keys|] == keys;
    }

    /** `upsertProductToDb(p)`. */
    method Upsert(p: ProductInput) returns (r: UpsertOutcome)
      modifies this
      ensures (products, r) == UpsertSpec(old(products), p)
      ensures old(Valid()) ==> Valid()
    {
      if Valid() {
        UpsertKeepsUniqueIds(products, p);
      }
      var i := RowIndex(products, p.id);
      products := UpsertRow(products, p);
      if p.additionalImages.Some? {
        ReplaceImages(i, p.additionalImages.value);
      }
      r := Upserted;
      if p.variants.Some? {
        r := ReplaceVariants(i, p.id, p.variants.value);
      }
    }

    /** DELETE FROM product_images WHERE product_id = ?, then one INSERT per url. */
    method ReplaceImages(i: nat, imgs: seq<string>)
      requires i < |products|
      modifies this
      ensures products == WithImages(old(products), i, imgs)
    {
      ghost var base := products;
      products := WithImages(products, i, []);
      for j := 0 to |imgs|
        invariant products == WithImages(base, i, imgs[..j])
      {
        products := WithImages(products, i, products[i].additionalImages + [imgs[j]]);
        assert imgs[..j + 1] == imgs[..j] + [imgs[j]];
      }
      assert imgs[..|imgs|] == imgs;
    }

    /** DELETE FROM product_variants WHERE product_id = ?, then one INSERT per variant,
        each of which fails when its id is already a key of the table. */
    method ReplaceVariants(i: nat, productId: string, vs: seq<VariantInput>) returns (r: UpsertOutcome)
      requires i < |products|
      modifies this
      ensures var rows := Rows(productId, vs);
        var k := FirstClash(old(products), i, rows, 0);
        products == WithVariants(old(products), i, rows[..k])
        && r == if k == |rows| then Upserted else VariantIdTaken(rows[k].id)
    {
      ghost var base := products;
      ghost var rows := Rows(productId, vs);
      products := WithVariants(products, i, []);
      assert rows[..0] == [];
      for j := 0 to |vs|
        invariant products == WithVariants(base, i, rows[..j])
        invariant FirstClash(base, i, rows, 0) == FirstClash(base, i, rows, j)
      {
        var row := VariantRow(productId, vs[j]);
        if row.id in AllVariantIds(products) {
          r := VariantIdTaken(row.id);
          return;
        }
        products := WithVariants(products, i, products[i].variants + [row]);
        assert rows[..j + 1] == rows[..j] + [row];
      }
      assert rows[..|vs|] == rows;
      r := Upserted;
    }
  }
}
