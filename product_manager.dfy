/** The product manager: a thin layer over the mobile store that merges partial product
    updates and selects records by expiry threshold or by the product's return period. */
module ProductManagement {
  import opened Text
  import opened Database
  import Records

  /** The product after an update: each given field replaces the stored one. */
  function Merge(p: Product, name: Option<string>, shelfLife: Option<int>, returnDays: Option<int>): (r: Product)
    ensures r.barcode == p.barcode
  {
    Product(p.barcode,
            if name.Some? then name.value else p.name,
            if shelfLife.Some? then shelfLife.value else p.shelfLife,
            if returnDays.Some? then returnDays.value else p.returnDays)
  }

  /** An update that gives nothing leaves the product as it was, an update repeated changes
      nothing more, and a given field always ends up with the given value. */
  lemma MergeFacts(p: Product, name: Option<string>, shelfLife: Option<int>, returnDays: Option<int>)
    ensures Merge(p, None, None, None) == p
    ensures var q := Merge(p, name, shelfLife, returnDays); Merge(q, name, shelfLife, returnDays) == q
    ensures var q := Merge(p, name, shelfLife, returnDays);
            (name.Some? ==> q.name == name.value) && (name.None? ==> q.name == p.name)
            && (shelfLife.Some? ==> q.shelfLife == shelfLife.value) && (shelfLife.None? ==> q.shelfLife == p.shelfLife)
            && (returnDays.Some? ==> q.returnDays == returnDays.value) && (returnDays.None? ==> q.returnDays == p.returnDays)
  {
  }

  /** A record is still within the return period of its product. */
  predicate WithinReturn(r: Record, products: map<string, Product>)
  {
    r.barcode in products && r.days <= products[r.barcode].returnDays
  }

  /** The records, in order, still within the return period of a known product. */
  function Returnable(rows: seq<Record>, products: map<string, Product>): (r: seq<Record>)
  {
    Records.Keep(rows, (x: Record) => WithinReturn(x, products))
  }

  /** The records, in order, with at most `threshold` days left. */
  function DueWithin(rows: seq<Record>, threshold: int): seq<Record>
  {
    Records.Keep(rows, (x: Record) => x.days <= threshold)
  }

  /** Selecting from the rows sorted by days remaining gives exactly the qualifying records,
      still sorted. */
  lemma ReturnableSorted(rows: seq<Record>, products: map<string, Product>)
    ensures var r := Returnable(Records.Sort(rows, View, Records.DaysAsc), products);
            (forall x :: x in r <==> x in rows && WithinReturn(x, products))
            && Records.Sorted(r, View, Records.DaysAsc)
  {
    var all := Records.Sort(rows, View, Records.DaysAsc);
    Records.KeepSorted(all, (x: Record) => WithinReturn(x, products), View, Records.DaysAsc);
    forall x ensures x in all <==> x in rows {
      assert x in all <==> x in multiset(all);
    }
  }

  lemma ReturnableStep(rows: seq<Record>, i: nat, products: map<string, Product>)
    requires i < |rows|
    ensures Returnable(rows[..i + 1], products)
            == Returnable(rows[..i], products) + if WithinReturn(rows[i], products) then [rows[i]] else []
  {
    Records.KeepSnoc(rows[..i], rows[i], (x: Record) => WithinReturn(x, products));
    assert rows[..i + 1] == rows[..i] + [rows[i]];
  }

  lemma DueWithinSorted(rows: seq<Record>, threshold: int)
    ensures var r := DueWithin(Records.Sort(rows, View, Records.DaysAsc), threshold);
            (forall x :: x in r <==> x in rows && x.days <= threshold)
            && Records.Sorted(r, View, Records.DaysAsc)
  {
    var all := Records.Sort(rows, View, Records.DaysAsc);
    Records.KeepSorted(all, (x: Record) => x.days <= threshold, View, Records.DaysAsc);
    forall x ensures x in all <==> x in rows {
      assert x in all <==> x in multiset(all);
    }
  }

  /** The default threshold of seven days selects exactly the 即将过期 and 已过期 bands. */
  lemma DefaultThresholdBands(days: int)
    ensures days <= 7 <==> Records.InStatus(days, Records.SoonLabel) || Records.InStatus(days, Records.ExpiredLabel)
  {
  }

  class ProductManager {
    const db: DatabaseManager

    constructor (db: DatabaseManager)
      ensures this.db == db
    {
      this.db := db;
    }

    method AddProduct(barcode: string, name: string, shelfLife: Option<int>, returnDays: Option<int>)
      returns (ok: bool)
      requires db.Valid()
      modifies db
      ensures db.Valid()
      ensures ok <==> shelfLife.Some? && Records.BindsOpt(shelfLife) && Records.BindsOpt(returnDays)
      ensures ok ==> db.products == old(db.products)[barcode := Product(barcode, name, shelfLife.value,
                                                                        if returnDays.Some? then returnDays.value else 7)]
      ensures !ok ==> db.products == old(db.products)
      ensures db.records == old(db.records) && db.nextId == old(db.nextId) && db.settings == old(db.settings)
    {
      ok := db.AddProduct(barcode, name, shelfLife, returnDays);
    }

    method GetProductInfo(barcode: string) returns (p: Option<Product>)
      requires db.Valid()
      ensures p.Some? <==> barcode in db.products
      ensures p.Some? ==> p.value == db.products[barcode] && p.value.barcode == barcode
    {
      p := db.GetProduct(barcode);
    }

    /** Fills the fields not given from the stored product and writes it back; fails when the
        barcode has no product or a merged value does not bind as a 64-bit integer. */
    method UpdateProduct(barcode: string, name: Option<string>, shelfLife: Option<int>, returnDays: Option<int>)
      returns (ok: bool)
      requires db.Valid()
      modifies db
      ensures db.Valid()
      ensures ok <==> barcode in old(db.products)
                      && var m := Merge(old(db.products)[barcode], name, shelfLife, returnDays);
                         Records.Int64(m.shelfLife) && Records.Int64(m.returnDays)
      ensures ok ==> db.products == old(db.products)[barcode := Merge(old(db.products)[barcode], name, shelfLife, returnDays)]
      ensures !ok ==> db.products == old(db.products)
      ensures db.records == old(db.records) && db.nextId == old(db.nextId) && db.settings == old(db.settings)
    {
      var product := db.GetProduct(barcode);
      if product.None? {
        return false;
      }
      var merged := Merge(product.value, name, shelfLife, returnDays);
      ok := db.AddProduct(barcode, merged.name, Some(merged.shelfLife), Some(merged.returnDays));
    }

    /** The records with at most `threshold` days left, by days remaining. */
    method GetProductsByExpiry(threshold: int) returns (rows: seq<Record>)
      ensures rows == DueWithin(Records.Sort(db.records, View, Records.DaysAsc), threshold)
      ensures forall r :: r in rows <==> r in db.records && r.days <= threshold
      ensures Records.Sorted(rows, View, Records.DaysAsc)
    {
      var all := db.GetAllProducts("days_remaining");
      rows := DueWithin(all, threshold);
      DueWithinSorted(db.records, threshold);
    }

    /** Walks all records by days remaining and keeps those still within the return period of
        a known product. */
    method GetProductsByReturnDays() returns (result: seq<Record>)
      requires db.Valid()
      ensures result == Returnable(Records.Sort(db.records, View, Records.DaysAsc), db.products)
      ensures forall r :: r in result <==> r in db.records && WithinReturn(r, db.products)
      ensures Records.Sorted(result, View, Records.DaysAsc)
    {
      var all := db.GetAllProducts("days_remaining");
      var products := db.products;
      result := [];
      var i := 0;
      while i < |all|
        invariant 0 <= i <= |all|
        invariant result == Returnable(all[..i], products)
      {
        var product := db.GetProduct(all[i].barcode);
        assert product.Some? && all[i].days <= product.value.returnDays <==> WithinReturn(all[i], products);
        ReturnableStep(all, i, products);
        if product.Some? && all[i].days <= product.value.returnDays {
          result := result + [all[i]];
        }
        i := i + 1;
      }
      assert all[..i] == all;
      ReturnableSorted(db.records, products);
    }
  }
}
