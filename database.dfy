/** The mobile app's SQLite store: a `products` table keyed by barcode, a `product_records`
    table with an AUTOINCREMENT id, and a `settings` key/value table. The tables are fields of
    `DatabaseManager`; every operation that writes replaces them as one SQL statement would. */
module Database {
  import opened Text
  import Calendar
  import Strptime
  import Records

  /** A `products` row. */
  datatype Product = Product(barcode: string, name: string, shelfLife: int, returnDays: int)

  /** A `product_records` row. */
  datatype Record = Record(id: nat, barcode: string, name: string, production: string,
                           expiry: string, days: int, scan: string, synced: bool)

  /** The columns the shared filters and orderings read. */
  function View(r: Record): Records.Row
  {
    Records.Row(r.name, r.barcode, r.expiry, r.days, r.scan)
  }

  /** A Python value handed to the store: text, an int, a bool or None. */
  datatype PyValue = Str(s: string) | Int(i: int) | Bool(b: bool) | Null

  /** `str(value)`. */
  function PyStr(v: PyValue): string
  {
    match v
    case Str(s) => s
    case Int(i) => IntToString(i)
    case Bool(b) => if b then "True" else "False"
    case Null => "None"
  }

  /** Python's outcome of a call: a normal return, or the NameError raised by `Logger`, which the
      module never imports. */
  datatype Outcome = Returned(ok: bool) | NameErrorRaised

  // ---------------------------------------------------------------------------------------
  // add_product_record: the values written

  /** A date argument: a `datetime.date`, a string, or None. */
  datatype DateArg = DateObject(date: Calendar.Date) | DateText(text: string) | NoDate

  predicate DateArgOk(a: DateArg)
  {
    a.DateObject? ==> Calendar.IsValidDate(a.date)
  }

  /** The column value of a date argument (None is SQL NULL): a date is written `%Y-%m-%d`, a
      non-empty string that strips to nothing becomes None, any other string is kept as given. */
  function DateColumn(a: DateArg): (r: Option<string>)
    requires DateArgOk(a)
    ensures a.NoDate? ==> r.None?
    ensures a.DateText? ==> (r.None? <==> a.text != [] && StripsToEmpty(a.text))
    ensures a.DateObject? ==> r == Some(Calendar.FormatIso(a.date))
  {
    match a
    case DateObject(d) => Some(Calendar.FormatIso(d))
    case DateText(t) => if t != [] && StripsToEmpty(t) then None else Some(t)
    case NoDate => None
  }

  /** The `days_remaining` written: the given count, else, for a non-empty expiry, the days from
      `today` to the expiry parsed as `%Y-%m-%d` (0 when it does not parse), else None. */
  function DaysColumn(days: Option<int>, expiry: Option<string>, today: Calendar.Date): (r: Option<int>)
    requires Calendar.IsValidDate(today)
    ensures days.Some? ==> r == days
    ensures days.None? ==> (r.Some? <==> expiry.Some? && expiry.value != [])
    ensures days.None? && expiry.Some? && expiry.value != [] ==>
              var e := Strptime.Parse(expiry.value, Strptime.IsoFormat);
              (e.None? ==> r == Some(0)) && (e.Some? ==> r == Some(Calendar.DaysBetween(e.value, today)))
  {
    if days.Some? then days
    else if expiry.Some? && expiry.value != [] then
      var e := Strptime.Parse(expiry.value, Strptime.IsoFormat);
      Some(if e.Some? then Calendar.DaysBetween(e.value, today) else 0)
    else None
  }

  /** With no count given, an expiry text that parses as `%Y-%m-%d` gets the count that takes
      `today` to the expiry, and one that does not parse gets 0. */
  lemma DaysColumnCounts(expiry: string, today: Calendar.Date)
    requires Calendar.IsValidDate(today) && expiry != []
    ensures var e := Strptime.Parse(expiry, Strptime.IsoFormat);
            var r := DaysColumn(None, Some(expiry), today);
            r.Some? && (e.None? ==> r.value == 0) && (e.Some? ==> Calendar.AddDays(today, r.value) == e)
  {
    var e := Strptime.Parse(expiry, Strptime.IsoFormat);
    if e.Some? {
      Calendar.AddBetween(e.value, today);
    }
  }

  /** A date argument is stored as text that reads back as the same date; with no count given,
      the count is the distance from `today` to that date. */
  lemma DateObjectStored(expiry: Calendar.Date, today: Calendar.Date)
    requires Calendar.IsValidDate(expiry) && Calendar.IsValidDate(today)
    ensures Strptime.Parse(DateColumn(DateObject(expiry)).value, Strptime.IsoFormat) == Some(expiry)
    ensures DaysColumn(None, DateColumn(DateObject(expiry)), today)
            == Some(Calendar.DaysBetween(expiry, today))
  {
    Strptime.IsoRoundTrip(expiry);
  }

  predicate SameItem(r: Record, barcode: string, name: string)
  {
    r.barcode == barcode && r.name == name
  }

  predicate HasItem(rows: seq<Record>, barcode: string, name: string)
  {
    exists i | 0 <= i < |rows| :: SameItem(rows[i], barcode, name)
  }

  /** The `product_records` table after a successful add: every row of the same barcode and name
      takes the new dates, count and scan date and is marked unsynced; with no such row a new
      one is appended under the next id. */
  function Recorded(rows: seq<Record>, nextId: nat, barcode: string, name: string,
                    production: string, expiry: string, days: int, scan: string): (r: seq<Record>)
    ensures HasItem(rows, barcode, name) ==> |r| == |rows|
    ensures !HasItem(rows, barcode, name) ==> |r| == |rows| + 1
  {
    if HasItem(rows, barcode, name) then
      seq(|rows|, i requires 0 <= i < |rows| =>
        if SameItem(rows[i], barcode, name)
        then rows[i].(production := production, expiry := expiry, days := days, scan := scan, synced := false)
        else rows[i])
    else rows + [Record(nextId, barcode, name, production, expiry, days, scan, false)]
  }

  /** After an add, the item's rows hold exactly the new values, every other row is untouched,
      and the ids stay those of the table plus possibly the next one. */
  lemma RecordedFacts(rows: seq<Record>, nextId: nat, barcode: string, name: string,
                      production: string, expiry: string, days: int, scan: string)
    ensures var r := Recorded(rows, nextId, barcode, name, production, expiry, days, scan);
            HasItem(r, barcode, name)
            && (forall x :: x in r && SameItem(x, barcode, name) ==>
                  x.production == production && x.expiry == expiry && x.days == days
                  && x.scan == scan && !x.synced)
            && (forall x :: x in rows && !SameItem(x, barcode, name) ==> x in r)
            && (forall x :: x in r && !SameItem(x, barcode, name) ==> x in rows)
            && (forall i :: 0 <= i < |r| ==> r[i].id == (if i < |rows| then rows[i].id else nextId))
  {
    var r := Recorded(rows, nextId, barcode, name, production, expiry, days, scan);
    if HasItem(rows, barcode, name) {
      var i :| 0 <= i < |rows| && SameItem(rows[i], barcode, name);
      assert SameItem(r[i], barcode, name);
      forall x | x in rows && !SameItem(x, barcode, name) ensures x in r {
        var j :| 0 <= j < |rows| && rows[j] == x;
        assert r[j] == x;
      }
    } else {
      assert SameItem(r[|rows|], barcode, name);
    }
  }

  function Id(r: Record): int
  {
    r.id
  }

  predicate DistinctIds(rows: seq<Record>)
  {
    Records.DistinctBy(rows, Id)
  }

  /** An add keeps the ids distinct and below the counter, which moves on when a row is added. */
  lemma RecordedIds(rows: seq<Record>, nextId: nat, barcode: string, name: string,
                    production: string, expiry: string, days: int, scan: string)
    requires IdsBelow(rows, nextId) && DistinctIds(rows)
    ensures var r := Recorded(rows, nextId, barcode, name, production, expiry, days, scan);
            IdsBelow(r, if HasItem(rows, barcode, name) then nextId else nextId + 1) && DistinctIds(r)
  {
    RecordedFacts(rows, nextId, barcode, name, production, expiry, days, scan);
  }

  // ---------------------------------------------------------------------------------------
  // update_record

  /** One keyword argument of `update_record`. */
  datatype Kwarg = Kwarg(key: string, value: PyValue)

  const EditableKeys: seq<string> := ["name", "production_date", "expiry_date", "days_remaining"]

  /** A keyword argument naming an editable column. */
  predicate IsEditable(k: Kwarg)
  {
    k.key in EditableKeys
  }

  /** The keyword arguments whose key is one of the editable columns, each as often as given,
      in order. */
  function Editable(kwargs: seq<Kwarg>): (r: seq<Kwarg>)
    ensures forall k :: k in r <==> k in kwargs && k.key in EditableKeys
    ensures forall k :: multiset(r)[k] == if k.key in EditableKeys then multiset(kwargs)[k] else 0
    ensures Records.IsSubsequence(r, kwargs)
  {
    Records.Keep(kwargs, IsEditable)
  }

  /** The loop of `update_record` that collects the keyword arguments naming an editable
      column. */
  method CollectEditable(kwargs: seq<Kwarg>) returns (changes: seq<Kwarg>)
    ensures changes == Editable(kwargs)
  {
    changes := [];
    var i := 0;
    while i < |kwargs|
      invariant 0 <= i <= |kwargs|
      invariant changes == Editable(kwargs[..i])
    {
      assert kwargs[..i + 1] == kwargs[..i] + [kwargs[i]];
      Records.KeepSnoc(kwargs[..i], kwargs[i], IsEditable);
      if kwargs[i].key in EditableKeys {
        changes := changes + [kwargs[i]];
      }
      i := i + 1;
    }
    assert kwargs[..i] == kwargs;
  }

  /** The value the rightmost assignment to a column gives it (SQLite ignores all but the
      rightmost assignment of a column in one UPDATE). */
  function Assigned(cs: seq<Kwarg>, key: string): (r: Option<PyValue>)
    ensures r.Some? <==> exists k :: k in cs && k.key == key
  {
    if cs == [] then None
    else if cs[|cs| - 1].key == key then Some(cs[|cs| - 1].value)
    else Assigned(cs[..|cs| - 1], key)
  }

  /** A value bound into a TEXT column (TEXT affinity stores numbers as their text; a bool is
      bound as 1 or 0). */
  function TextCell(v: PyValue): string
  {
    match v
    case Str(s) => s
    case Int(i) => IntToString(i)
    case Bool(b) => if b then "1" else "0"
    case Null => ""
  }

  /** A value bound into the INTEGER column. */
  function IntCell(v: PyValue): int
  {
    match v
    case Int(i) => i
    case Bool(b) => if b then 1 else 0
    case _ => 0
  }

  function ApplyOne(r: Record, c: Kwarg): Record
  {
    if c.key == "name" then r.(name := TextCell(c.value))
    else if c.key == "production_date" then r.(production := TextCell(c.value))
    else if c.key == "expiry_date" then r.(expiry := TextCell(c.value))
    else if c.key == "days_remaining" then r.(days := IntCell(c.value))
    else r
  }

  function ApplyAll(r: Record, cs: seq<Kwarg>): Record
  {
    if cs == [] then r else ApplyOne(ApplyAll(r, cs[..|cs| - 1]), cs[|cs| - 1])
  }

  /** `value` if the column was assigned, `old` otherwise. */
  function OrText(a: Option<PyValue>, old_: string): string
  {
    if a.Some? then TextCell(a.value) else old_
  }

  /** Each editable column takes its rightmost assignment; id, barcode, scan date and the sync
      flag never change. */
  lemma {:induction false} ApplyAllColumns(r: Record, cs: seq<Kwarg>)
    ensures var u := ApplyAll(r, cs);
            u.id == r.id && u.barcode == r.barcode && u.scan == r.scan && u.synced == r.synced
            && u.name == OrText(Assigned(cs, "name"), r.name)
            && u.production == OrText(Assigned(cs, "production_date"), r.production)
            && u.expiry == OrText(Assigned(cs, "expiry_date"), r.expiry)
            && u.days == (var a := Assigned(cs, "days_remaining"); if a.Some? then IntCell(a.value) else r.days)
  {
    if cs != [] {
      ApplyAllColumns(r, cs[..|cs| - 1]);
    }
  }

  /** Every int bound by the UPDATE, the assigned values and the id, fits in 64 bits. */
  predicate UpdateBinds(cs: seq<Kwarg>, id: int)
  {
    Records.Int64(id) && forall k :: k in cs && k.value.Int? ==> Records.Int64(k.value.i)
  }

  /** Some column's rightmost assignment is None, which the NOT NULL constraints refuse. */
  predicate AssignsNull(cs: seq<Kwarg>)
  {
    exists key :: key in EditableKeys && Assigned(cs, key) == Some(Null)
  }

  /** `UPDATE product_records SET ... WHERE id = ?`. */
  function UpdateWhere(rows: seq<Record>, id: int, cs: seq<Kwarg>): (r: seq<Record>)
    ensures |r| == |rows|
    ensures forall i :: 0 <= i < |rows| ==> r[i] == if rows[i].id == id then ApplyAll(rows[i], cs) else rows[i]
  {
    seq(|rows|, i requires 0 <= i < |rows| => if rows[i].id == id then ApplyAll(rows[i], cs) else rows[i])
  }

  predicate HasId(rows: seq<Record>, id: int)
  {
    exists i | 0 <= i < |rows| :: rows[i].id == id
  }

  // ---------------------------------------------------------------------------------------
  // settings

  /** A value `get_settings` returns: a string of ASCII digits comes back as an int. */
  datatype Setting = TextSetting(text: string) | IntSetting(n: nat)

  function ReadSetting(v: string): (r: Setting)
    ensures r.IntSetting? <==> v != [] && AllDigits(v)
    ensures r.TextSetting? ==> r.text == v
  {
    if v != [] && AllDigits(v) then IntSetting(DigitsValue(v)) else TextSetting(v)
  }

  /** What saving a value and reading all settings back gives: a non-negative int comes back as
      that int, a negative int or a bool as its text, a string as itself unless it is all digits. */
  lemma SettingRoundTrip(v: PyValue)
    ensures v.Int? && v.i >= 0 ==> ReadSetting(PyStr(v)) == IntSetting(v.i)
    ensures v.Int? && v.i < 0 ==> ReadSetting(PyStr(v)) == TextSetting(IntToString(v.i))
    ensures v.Bool? ==> ReadSetting(PyStr(v)).TextSetting?
    ensures v.Str? && !(v.s != [] && AllDigits(v.s)) ==> ReadSetting(PyStr(v)) == TextSetting(v.s)
  {
    if v.Int? && v.i >= 0 {
      NatToStringRoundTrip(v.i);
    }
    if v.Int? && v.i < 0 {
      assert !IsDigit(PyStr(v)[0]);
    }
    if v.Bool? {
      assert !IsDigit(PyStr(v)[0]);
    }
  }

  type Entry = (string, string)

  function Keys(s: seq<Entry>): set<string>
  {
    if s == [] then {} else Keys(s[..|s| - 1]) + {s[|s| - 1].0}
  }

  /** The `key` column is the table's primary key. */
  predicate UniqueKeys(s: seq<Entry>)
  {
    s == [] || (UniqueKeys(s[..|s| - 1]) && s[|s| - 1].0 !in Keys(s[..|s| - 1]))
  }

  /** The value stored under a key; with repeated keys the last one would win, as in a dict. */
  function Lookup(s: seq<Entry>, key: string): (r: Option<string>)
    ensures r.Some? <==> key in Keys(s)
  {
    if s == [] then None
    else if s[|s| - 1].0 == key then Some(s[|s| - 1].1)
    else Lookup(s[..|s| - 1], key)
  }

  function RemoveKey(s: seq<Entry>, key: string): seq<Entry>
  {
    if s == [] then []
    else RemoveKey(s[..|s| - 1], key) + (if s[|s| - 1].0 == key then [] else [s[|s| - 1]])
  }

  /** `INSERT OR REPLACE`: the old row of the key is deleted and the new one appended. */
  function Replace(s: seq<Entry>, key: string, value: string): seq<Entry>
  {
    RemoveKey(s, key) + [(key, value)]
  }

  lemma {:induction false} RemoveKeyKeys(s: seq<Entry>, key: string)
    ensures Keys(RemoveKey(s, key)) == Keys(s) - {key}
  {
    if s != [] {
      var init := s[..|s| - 1];
      RemoveKeyKeys(init, key);
      var r := RemoveKey(init, key);
      if s[|s| - 1].0 != key {
        var t := r + [s[|s| - 1]];
        assert t[..|t| - 1] == r;
      } else {
        assert RemoveKey(s, key) == r + [] == r;
      }
    }
  }

  lemma {:induction false} RemoveKeyUnique(s: seq<Entry>, key: string)
    requires UniqueKeys(s)
    ensures UniqueKeys(RemoveKey(s, key))
  {
    if s != [] {
      var init := s[..|s| - 1];
      RemoveKeyUnique(init, key);
      RemoveKeyKeys(init, key);
      var r := RemoveKey(init, key);
      if s[|s| - 1].0 != key {
        var t := r + [s[|s| - 1]];
        assert t[..|t| - 1] == r;
      } else {
        assert RemoveKey(s, key) == r + [] == r;
      }
    }
  }

  lemma {:induction false} RemoveKeyLookup(s: seq<Entry>, key: string, k: string)
    requires k != key
    ensures Lookup(RemoveKey(s, key), k) == Lookup(s, k)
  {
    if s != [] {
      var init := s[..|s| - 1];
      RemoveKeyLookup(init, key, k);
      var r := RemoveKey(init, key);
      if s[|s| - 1].0 != key {
        var t := r + [s[|s| - 1]];
        assert t[..|t| - 1] == r;
      } else {
        assert RemoveKey(s, key) == r + [] == r;
      }
    }
  }

  /** Replacing a key keeps the keys unique; that key then reads back as the new value and
      every other key as before. */
  lemma ReplaceFacts(s: seq<Entry>, key: string, value: string)
    ensures UniqueKeys(s) ==> UniqueKeys(Replace(s, key, value))
    ensures Lookup(Replace(s, key, value), key) == Some(value)
    ensures forall k :: k != key ==> Lookup(Replace(s, key, value), k) == Lookup(s, k)
    ensures Keys(Replace(s, key, value)) == Keys(s) + {key}
  {
    RemoveKeyKeys(s, key);
    if UniqueKeys(s) {
      RemoveKeyUnique(s, key);
    }
    forall k | k != key ensures Lookup(Replace(s, key, value), k) == Lookup(s, k) {
      RemoveKeyLookup(s, key, k);
    }
    var r := Replace(s, key, value);
    assert r[..|r| - 1] == RemoveKey(s, key);
  }

  /** Saving the entries of a dict in order. */
  function SaveAll(s: seq<Entry>, kvs: seq<(string, PyValue)>): seq<Entry>
  {
    if kvs == [] then s
    else
      var last := kvs[|kvs| - 1];
      Replace(SaveAll(s, kvs[..|kvs| - 1]), last.0, PyStr(last.1))
  }

  /** The value the last entry for a key gives it. */
  function LastValue(kvs: seq<(string, PyValue)>, key: string): (r: Option<PyValue>)
    ensures r.Some? <==> exists kv :: kv in kvs && kv.0 == key
  {
    if kvs == [] then None
    else if kvs[|kvs| - 1].0 == key then Some(kvs[|kvs| - 1].1)
    else LastValue(kvs[..|kvs| - 1], key)
  }

  /** After saving a dict, each of its keys reads back as the text of its value and every other
      key as before; the keys stay unique. */
  lemma {:induction false} SaveAllFacts(s: seq<Entry>, kvs: seq<(string, PyValue)>)
    ensures UniqueKeys(s) ==> UniqueKeys(SaveAll(s, kvs))
    ensures forall k :: Lookup(SaveAll(s, kvs), k)
                        == (var v := LastValue(kvs, k); if v.Some? then Some(PyStr(v.value)) else Lookup(s, k))
  {
    if kvs != [] {
      var init := kvs[..|kvs| - 1];
      var last := kvs[|kvs| - 1];
      SaveAllFacts(s, init);
      ReplaceFacts(SaveAll(s, init), last.0, PyStr(last.1));
    }
  }

  // ---------------------------------------------------------------------------------------
  // The store

  const DefaultReturnDaysKey: string := "default_return_days"

  class DatabaseManager {
    var products: map<string, Product>
    var records: seq<Record>
    /** The AUTOINCREMENT counter: one more than the largest id ever handed out. */
    var nextId: nat
    var settings: seq<Entry>

    /** Products are stored under their own barcode, record ids are distinct and below the
        counter, and setting keys are distinct. */
    predicate Valid()
      reads this
    {
      (forall b :: b in products ==> products[b].barcode == b)
      && IdsBelow(records, nextId) && DistinctIds(records)
      && UniqueKeys(settings)
    }

    /** Opens a database file holding the given tables and adds the default return period
        (`INSERT OR IGNORE`) when it is not set. */
    constructor (storedProducts: map<string, Product>, storedRecords: seq<Record>, storedNextId: nat,
                 storedSettings: seq<Entry>)
      requires forall b :: b in storedProducts ==> storedProducts[b].barcode == b
      requires IdsBelow(storedRecords, storedNextId)
      requires DistinctIds(storedRecords)
      requires UniqueKeys(storedSettings)
      ensures Valid()
      ensures products == storedProducts && records == storedRecords && nextId == storedNextId
      ensures settings == if DefaultReturnDaysKey in Keys(storedSettings) then storedSettings
                          else storedSettings + [(DefaultReturnDaysKey, "7")]
      ensures Lookup(settings, DefaultReturnDaysKey).Some?
    {
      products := storedProducts;
      records := storedRecords;
      nextId := storedNextId;
      if DefaultReturnDaysKey in Keys(storedSettings) {
        settings := storedSettings;
      } else {
        var s := storedSettings + [(DefaultReturnDaysKey, "7")];
        assert s[..|s| - 1] == storedSettings;
        settings := s;
      }
    }

    /** `INSERT OR REPLACE INTO products`: without a shelf life the NOT NULL constraint aborts
        the statement; without a return period the column default 7 is used. */
    method AddProduct(barcode: string, name: string, shelfLife: Option<int>, returnDays: Option<int>)
      returns (ok: bool)
      requires Valid()
      modifies this
      ensures Valid()
      ensures ok <==> shelfLife.Some? && Records.BindsOpt(shelfLife) && Records.BindsOpt(returnDays)
      ensures ok ==> products == old(products)[barcode := Product(barcode, name, shelfLife.value,
                                                                  if returnDays.Some? then returnDays.value else 7)]
      ensures !ok ==> products == old(products)
      ensures records == old(records) && nextId == old(nextId) && settings == old(settings)
    {
      if !Records.BindsOpt(shelfLife) || !Records.BindsOpt(returnDays) || shelfLife.None? {
        return false;
      }
      var rd := if returnDays.Some? then returnDays.value else 7;
      products := products[barcode := Product(barcode, name, shelfLife.value, rd)];
      ok := true;
    }

    /** `SELECT * FROM products WHERE barcode = ?`. */
    method GetProduct(barcode: string) returns (p: Option<Product>)
      requires Valid()
      ensures p.Some? <==> barcode in products
      ensures p.Some? ==> p.value == products[barcode] && p.value.barcode == barcode
    {
      if barcode in products {
        p := Some(products[barcode]);
      } else {
        p := None;
      }
    }

    /** Records a scan of an item. A date argument is written `%Y-%m-%d`; a missing count is
        worked out from the expiry. A NULL production date, expiry date or count fails the NOT
        NULL constraints and leaves the table as it was. Otherwise the item's rows are updated,
        or a row is added. When a shelf life or return period is passed, the records write
        stands but the follow-up `SELECT id FROM products` names a column the table lacks, so
        the call reports failure and `products` is not touched. */
    method AddProductRecord(barcode: string, name: string, production: DateArg, expiry: DateArg,
                            days: Option<int>, shelfLife: Option<int>, returnDays: Option<int>,
                            today: Calendar.Date)
      returns (ok: bool)
      requires Valid() && Calendar.IsValidDate(today) && DateArgOk(production) && DateArgOk(expiry)
      modifies this
      ensures Valid()
      ensures var p, e := DateColumn(production), DateColumn(expiry);
              var d := DaysColumn(days, e, today);
              if p.None? || e.None? || d.None? || !Records.Int64(d.value) then
                !ok && records == old(records) && nextId == old(nextId)
              else
                records == Recorded(old(records), old(nextId), barcode, name, p.value, e.value, d.value,
                                    Calendar.FormatIso(today))
                && nextId == (if HasItem(old(records), barcode, name) then old(nextId) else old(nextId) + 1)
                && (ok <==> shelfLife.None? && returnDays.None?)
      ensures products == old(products) && settings == old(settings)
    {
      var p := DateColumn(production);
      var e := DateColumn(expiry);
      var d := DaysColumn(days, e, today);
      if p.None? || e.None? || d.None? || !Records.Int64(d.value) {
        return false;
      }
      var scan := Calendar.FormatIso(today);
      var updated := Recorded(records, nextId, barcode, name, p.value, e.value, d.value, scan);
      RecordedIds(records, nextId, barcode, name, p.value, e.value, d.value, scan);
      if !HasItem(records, barcode, name) {
        nextId := nextId + 1;
      }
      records := updated;
      ok := shelfLife.None? && returnDays.None?;
    }

    /** `SELECT * FROM product_records ORDER BY ...` for a `sort_by` key. */
    method GetAllProducts(sortBy: string) returns (rows: seq<Record>)
      ensures rows == Records.Sort(records, View, Records.OrderOf(Records.MobileSortKeys, sortBy))
      ensures Records.Sorted(rows, View, Records.OrderOf(Records.MobileSortKeys, sortBy))
      ensures multiset(rows) == multiset(records)
    {
      rows := Records.Sort(records, View, Records.OrderOf(Records.MobileSortKeys, sortBy));
    }

    /** The rows whose name or barcode contains the search text and whose count is in the
        status band, by days remaining. */
    method FilterProducts(search: string, status: string) returns (rows: seq<Record>)
      ensures rows == Records.Query(records, View, search, status, Records.DaysAsc)
      ensures forall r :: r in rows <==> r in records && Records.Selected(View(r), search, status)
      ensures Records.Sorted(rows, View, Records.DaysAsc)
    {
      rows := Records.Query(records, View, search, status, Records.DaysAsc);
      Records.QueryExact(records, View, search, status, Records.DaysAsc);
    }

    method GetStatistics() returns (s: Records.Stats)
      ensures s == Records.Statistics(records, View)
      ensures s.total == |records| && s.expiringSoon + s.expired <= s.total
    {
      s := Records.Statistics(records, View);
      Records.StatisticsPartition(records, View);
    }

    /** `DELETE FROM product_records WHERE id = ?`. */
    method DeleteRecord(id: int) returns (ok: bool)
      requires Valid()
      modifies this
      ensures Valid()
      ensures ok <==> Records.Int64(id)
      ensures ok ==> records == Records.Keep(old(records), (r: Record) => r.id != id)
      ensures ok ==> forall r :: r in records <==> r in old(records) && r.id != id
      ensures !ok ==> records == old(records)
      ensures products == old(products) && nextId == old(nextId) && settings == old(settings)
    {
      if !Records.Int64(id) {
        return false;
      }
      var kept := Records.Keep(records, (r: Record) => r.id != id);
      Records.KeepDistinct(records, (r: Record) => r.id != id, Id);
      records := kept;
      ok := true;
    }

    /** Collects the editable keyword arguments and updates the row with the id. With nothing
        to set no statement runs; a NULL for an existing row aborts the statement. */
    method UpdateRecord(id: int, kwargs: seq<Kwarg>) returns (ok: bool)
      requires Valid()
      requires forall k :: k in kwargs && k.key == "days_remaining" ==> !k.value.Str?
      modifies this
      ensures Valid()
      ensures var cs := Editable(kwargs);
              if cs == [] || !UpdateBinds(cs, id) || (AssignsNull(cs) && HasId(old(records), id)) then records == old(records)
              else records == UpdateWhere(old(records), id, cs)
      ensures var cs := Editable(kwargs);
              ok <==> cs == [] || (UpdateBinds(cs, id) && !(AssignsNull(cs) && HasId(old(records), id)))
      ensures products == old(products) && nextId == old(nextId) && settings == old(settings)
    {
      var changes := CollectEditable(kwargs);
      if changes == [] {
        return true;
      }
      if !UpdateBinds(changes, id) {
        return false;
      }
      if AssignsNull(changes) && HasId(records, id) {
        return false;
      }
      var updated := UpdateWhere(records, id, changes);
      forall j | 0 <= j < |records| ensures updated[j].id == records[j].id {
        ApplyAllColumns(records[j], changes);
      }
      records := updated;
      ok := true;
    }

    /** Empties both product tables; settings and the id counter stay. The call then raises
        NameError at `Logger`. */
    method ClearAllData() returns (r: Outcome)
      requires Valid()
      modifies this
      ensures Valid() && r == NameErrorRaised
      ensures records == [] && products == map[]
      ensures nextId == old(nextId) && settings == old(settings)
    {
      records := [];
      products := map[];
      r := NameErrorRaised;
    }

    /** All settings as a dict, all-digit values converted to int. */
    method GetSettings() returns (m: map<string, Setting>)
      ensures forall k :: k in m <==> k in Keys(settings)
      ensures forall k :: k in m ==> m[k] == ReadSetting(Lookup(settings, k).value)
    {
      m := map[];
      var i := 0;
      while i < |settings|
        invariant 0 <= i <= |settings|
        invariant forall k :: k in m <==> k in Keys(settings[..i])
        invariant forall k :: k in m ==> m[k] == ReadSetting(Lookup(settings[..i], k).value)
      {
        assert settings[..i + 1][..i] == settings[..i];
        m := m[settings[i].0 := ReadSetting(settings[i].1)];
        i := i + 1;
      }
      assert settings[..i] == settings;
    }

    /** The stored text of a setting, or the default. */
    method GetSetting(key: string, default: Option<string>) returns (v: Option<string>)
      ensures key in Keys(settings) ==> v == Lookup(settings, key)
      ensures key !in Keys(settings) ==> v == default
    {
      var found := Lookup(settings, key);
      v := if found.Some? then found else default;
    }

    /** Stores `str(value)` under the key; the call then raises NameError at `Logger`. */
    method SaveSetting(key: string, value: PyValue) returns (r: Outcome)
      requires Valid()
      modifies this
      ensures Valid() && r == NameErrorRaised
      ensures settings == Replace(old(settings), key, PyStr(value))
      ensures Lookup(settings, key) == Some(PyStr(value))
      ensures forall k :: k != key ==> Lookup(settings, k) == Lookup(old(settings), k)
      ensures products == old(products) && records == old(records) && nextId == old(nextId)
    {
      ReplaceFacts(settings, key, PyStr(value));
      settings := Replace(settings, key, PyStr(value));
      r := NameErrorRaised;
    }

    /** Stores `str(value)` for every entry of the dict, in order. */
    method SaveSettings(kvs: seq<(string, PyValue)>) returns (ok: bool)
      requires Valid()
      modifies this
      ensures Valid() && ok
      ensures settings == SaveAll(old(settings), kvs)
      ensures forall k :: Lookup(settings, k)
                          == (var v := LastValue(kvs, k); if v.Some? then Some(PyStr(v.value)) else Lookup(old(settings), k))
      ensures products == old(products) && records == old(records) && nextId == old(nextId)
    {
      var i := 0;
      while i < |kvs|
        invariant 0 <= i <= |kvs|
        invariant Valid()
        invariant settings == SaveAll(old(settings), kvs[..i])
        invariant products == old(products) && records == old(records) && nextId == old(nextId)
      {
        assert kvs[..i + 1][..i] == kvs[..i];
        ReplaceFacts(settings, kvs[i].0, PyStr(kvs[i].1));
        settings := Replace(settings, kvs[i].0, PyStr(kvs[i].1));
        i := i + 1;
      }
      assert kvs[..i] == kvs;
      SaveAllFacts(old(settings), kvs);
      ok := true;
    }
  }

  predicate IdsBelow(rows: seq<Record>, bound: nat)
  {
    forall r :: r in rows ==> r.id < bound
  }
}
