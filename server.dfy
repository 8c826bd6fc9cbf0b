/** The desktop server's store: the `product_records` table that phone syncs fill, its queries
    for the web page, and the CSV export. */
module Server {
  import opened Text
  import Calendar
  import Strptime
  import Records

  /** A `product_records` row of the desktop database. */
  datatype ServerRecord = ServerRecord(id: nat, barcode: string, name: string, production: string,
                                       expiry: string, days: int, scan: string, syncTime: string,
                                       deviceId: string)

  function View(r: ServerRecord): Records.Row
  {
    Records.Row(r.name, r.barcode, r.expiry, r.days, r.scan)
  }

  function Id(r: ServerRecord): int
  {
    r.id
  }

  /** One synced record as decoded from the JSON body: its string fields by key. */
  type Incoming = map<string, string>

  const MicrosPerDay: nat := 86_400_000_000

  /** `(expiry - datetime.now()).days`: the expiry parses to midnight, and `timedelta.days`
      floors, so any time past midnight today costs a whole day. */
  function DaysUntil(expiry: Calendar.Date, today: Calendar.Date, microsOfDay: nat): int
    requires Calendar.IsValidDate(expiry) && Calendar.IsValidDate(today) && microsOfDay < MicrosPerDay
  {
    Calendar.DaysBetween(expiry, today) - (if microsOfDay > 0 then 1 else 0)
  }

  /** The count is the floor of the exact distance, in days, from now to the expiry's midnight. */
  lemma DaysUntilIsFloor(expiry: Calendar.Date, today: Calendar.Date, microsOfDay: nat)
    requires Calendar.IsValidDate(expiry) && Calendar.IsValidDate(today) && microsOfDay < MicrosPerDay
    ensures var delta := Calendar.ToOrdinal(expiry) * MicrosPerDay - (Calendar.ToOrdinal(today) * MicrosPerDay + microsOfDay);
            var n := DaysUntil(expiry, today, microsOfDay);
            n * MicrosPerDay <= delta < (n + 1) * MicrosPerDay
  {
    var n := DaysUntil(expiry, today, microsOfDay);
    var b := Calendar.DaysBetween(expiry, today);
    assert Calendar.ToOrdinal(expiry) * MicrosPerDay - Calendar.ToOrdinal(today) * MicrosPerDay == b * MicrosPerDay;
    if microsOfDay > 0 {
      assert n * MicrosPerDay == b * MicrosPerDay - MicrosPerDay;
    }
  }

  const IncomingKeys: seq<string> := ["expiry_date", "barcode", "name", "production_date", "scan_date"]

  /** `datetime.strptime(record['expiry_date'], '%Y-%m-%d')`, None where it raises. */
  function ExpiryOf(rec: Incoming): (r: Option<Calendar.Date>)
    ensures r.Some? ==> Calendar.IsValidDate(r.value)
  {
    if "expiry_date" in rec then Strptime.Parse(rec["expiry_date"], Strptime.IsoFormat) else None
  }

  /** The days remaining the loop computes for a record, None where `strptime` raises. */
  function DaysLeft(rec: Incoming, today: Calendar.Date, microsOfDay: nat): (r: Option<int>)
    requires Calendar.IsValidDate(today) && microsOfDay < MicrosPerDay
    ensures r.Some? <==> ExpiryOf(rec).Some?
  {
    var e := ExpiryOf(rec);
    if e.None? then None else Some(DaysUntil(e.value, today, microsOfDay))
  }

  /** The days remaining of every record of a batch. */
  function DaysLeftAll(batch: seq<Incoming>, today: Calendar.Date, microsOfDay: nat): (r: seq<Option<int>>)
    requires Calendar.IsValidDate(today) && microsOfDay < MicrosPerDay
    ensures |r| == |batch|
    ensures forall i :: 0 <= i < |batch| ==> r[i] == DaysLeft(batch[i], today, microsOfDay)
  {
    seq(|batch|, i requires 0 <= i < |batch| => DaysLeft(batch[i], today, microsOfDay))
  }

  predicate HasKeys(rec: Incoming)
  {
    forall k :: k in IncomingKeys ==> k in rec
  }

  /** The row one incoming record becomes under the given id, given its days remaining; None
      where the source raises: a missing key (KeyError) or an expiry that does not parse
      (ValueError). */
  function Convert(rec: Incoming, days: Option<int>, id: nat, syncTime: string): (r: Option<ServerRecord>)
    ensures r.Some? <==> HasKeys(rec) && days.Some?
    ensures r.Some? ==> r.value.id == id && r.value.barcode == rec["barcode"] && r.value.name == rec["name"]
                        && r.value.production == rec["production_date"] && r.value.expiry == rec["expiry_date"]
                        && r.value.scan == rec["scan_date"] && r.value.syncTime == syncTime
                        && r.value.deviceId == "mobile" && r.value.days == days.value
  {
    if days.None? || !HasKeys(rec) then None
    else
      Some(ServerRecord(id, rec["barcode"], rec["name"], rec["production_date"], rec["expiry_date"],
                        days.value, rec["scan_date"], syncTime, "mobile"))
  }

  /** The rows a batch becomes, with consecutive ids from `firstId`, or None if any record
      fails. */
  function ConvertAll(batch: seq<Incoming>, ds: seq<Option<int>>, firstId: nat, syncTime: string)
    : (r: Option<seq<ServerRecord>>)
    requires |ds| == |batch|
    ensures r.Some? ==> |r.value| == |batch|
  {
    if batch == [] then Some([])
    else
      var n := |batch| - 1;
      var init := ConvertAll(batch[..n], ds[..n], firstId, syncTime);
      var last := Convert(batch[n], ds[n], firstId + n, syncTime);
      if init.None? || last.None? then None else Some(init.value + [last.value])
  }

  /** A batch converts exactly when each of its records does ... */
  lemma {:induction false} ConvertAllSome(batch: seq<Incoming>, ds: seq<Option<int>>, firstId: nat, syncTime: string)
    requires |ds| == |batch|
    ensures ConvertAll(batch, ds, firstId, syncTime).Some? <==> forall i :: 0 <= i < |batch| ==> HasKeys(batch[i]) && ds[i].Some?
  {
    if batch != [] {
      var n := |batch| - 1;
      var init, last := batch[..n], ds[..n];
      ConvertAllSome(init, last, firstId, syncTime);
      assert forall i :: 0 <= i < n ==> init[i] == batch[i] && last[i] == ds[i];
      assert ConvertAll(batch, ds, firstId, syncTime).Some? <==>
             ConvertAll(init, last, firstId, syncTime).Some? && HasKeys(batch[n]) && ds[n].Some?;
    }
  }

  /** ... and then row i is record i's row, under the id `firstId + i`. */
  lemma {:induction false} ConvertAllEach(batch: seq<Incoming>, ds: seq<Option<int>>, firstId: nat, syncTime: string)
    requires |ds| == |batch|
    requires ConvertAll(batch, ds, firstId, syncTime).Some?
    ensures forall i :: 0 <= i < |batch| ==>
              Convert(batch[i], ds[i], firstId + i, syncTime).Some? &&
              ConvertAll(batch, ds, firstId, syncTime).value[i] == Convert(batch[i], ds[i], firstId + i, syncTime).value
  {
    if batch != [] {
      var n := |batch| - 1;
      ConvertAllEach(batch[..n], ds[..n], firstId, syncTime);
      assert forall i :: 0 <= i < n ==> batch[..n][i] == batch[i] && ds[..n][i] == ds[i];
    }
  }

  /** A sync is accepted exactly when every record carries the five keys and an expiry that
      parses as `%Y-%m-%d`; then row i holds record i's fields, the id `firstId + i`, and the
      days from now to its expiry. */
  lemma BatchAccepted(batch: seq<Incoming>, firstId: nat, today: Calendar.Date, microsOfDay: nat, syncTime: string)
    requires Calendar.IsValidDate(today) && microsOfDay < MicrosPerDay
    ensures var r := ConvertAll(batch, DaysLeftAll(batch, today, microsOfDay), firstId, syncTime);
            (r.Some? <==> forall i :: 0 <= i < |batch| ==>
                            HasKeys(batch[i]) && Strptime.Parse(batch[i]["expiry_date"], Strptime.IsoFormat).Some?)
            && (r.Some? ==> forall i :: 0 <= i < |batch| ==>
                  var e := Strptime.Parse(batch[i]["expiry_date"], Strptime.IsoFormat).value;
                  Calendar.IsValidDate(e) && r.value[i].id == firstId + i && r.value[i].expiry == batch[i]["expiry_date"]
                  && r.value[i].days == DaysUntil(e, today, microsOfDay))
  {
    var ds := DaysLeftAll(batch, today, microsOfDay);
    ConvertAllSome(batch, ds, firstId, syncTime);
    if ConvertAll(batch, ds, firstId, syncTime).Some? {
      ConvertAllEach(batch, ds, firstId, syncTime);
    }
  }

  const BOM: char := '\U{FEFF}'
  const HeaderLine: string := "产品名称,条码,生产日期,过期日期,剩余天数,扫描日期,同步时间"

  function Quote(field: string): string
  {
    "\"" + field + "\""
  }

  /** The seven exported fields of a row, each in double quotes (nothing inside is escaped). */
  function CsvFields(r: ServerRecord): seq<string>
  {
    [Quote(r.name), Quote(r.barcode), Quote(r.production), Quote(r.expiry), Quote(IntToString(r.days)),
     Quote(r.scan), Quote(r.syncTime)]
  }

  function CsvLine(r: ServerRecord): string
  {
    Join(CsvFields(r), ",")
  }

  function CsvLines(rows: seq<ServerRecord>): (r: seq<string>)
    ensures |r| == |rows| && forall i :: 0 <= i < |rows| ==> r[i] == CsvLine(rows[i])
  {
    seq(|rows|, i requires 0 <= i < |rows| => CsvLine(rows[i]))
  }

  /** The export: a byte-order mark, then the header and one line per row joined by newlines. */
  function CsvText(rows: seq<ServerRecord>): string
  {
    [BOM] + Join([HeaderLine] + CsvLines(rows), "\n")
  }

  predicate Plain(r: ServerRecord)
  {
    forall f :: f in [r.name, r.barcode, r.production, r.expiry, r.scan, r.syncTime] ==> '\n' !in f && ',' !in f
  }

  /** When no field holds a newline or a comma, the export reads back line by line: the
      header, then one line per row. */
  lemma CsvReadsBack(rows: seq<ServerRecord>)
    requires forall r :: r in rows ==> Plain(r)
    ensures Split(CsvText(rows)[1..], '\n') == [HeaderLine] + CsvLines(rows)
  {
    var lines := [HeaderLine] + CsvLines(rows);
    forall l | l in lines ensures '\n' !in l {
      if l == HeaderLine {
        HeaderIsOneLine();
      } else {
        var i :| 0 <= i < |rows| && CsvLines(rows)[i] == l;
        LineHasNoNewline(rows[i]);
      }
    }
    SplitJoin(lines, '\n');
  }

  lemma HeaderIsOneLine()
    ensures '\n' !in HeaderLine
  {
  }

  /** ... and each row's line reads back as its seven quoted fields. */
  lemma CsvLineReadsBack(r: ServerRecord)
    requires Plain(r)
    ensures Split(CsvLine(r), ',') == CsvFields(r)
  {
    FieldsHaveNoComma(r);
    SplitJoin(CsvFields(r), ',');
  }

  lemma FieldsHaveNoComma(r: ServerRecord)
    requires Plain(r)
    ensures forall f :: f in CsvFields(r) ==> ',' !in f && '\n' !in f
  {
    assert r.name in [r.name, r.barcode, r.production, r.expiry, r.scan, r.syncTime];
    assert r.barcode in [r.name, r.barcode, r.production, r.expiry, r.scan, r.syncTime];
    assert r.production in [r.name, r.barcode, r.production, r.expiry, r.scan, r.syncTime];
    assert r.expiry in [r.name, r.barcode, r.production, r.expiry, r.scan, r.syncTime];
    assert r.scan in [r.name, r.barcode, r.production, r.expiry, r.scan, r.syncTime];
    assert r.syncTime in [r.name, r.barcode, r.production, r.expiry, r.scan, r.syncTime];
    var d := IntToString(r.days);
    assert ',' !in d && '\n' !in d by {
      if r.days >= 0 {
        assert forall j :: 0 <= j < |d| ==> IsDigit(d[j]);
      } else {
        assert d == "-" + NatToString(-r.days);
        assert forall j :: 1 <= j < |d| ==> IsDigit(d[j]);
      }
    }
  }

  lemma {:induction false} JoinAvoids(parts: seq<string>, sep: string, c: char)
    requires c !in sep && forall p :: p in parts ==> c !in p
    ensures c !in Join(parts, sep)
    decreases |parts|
  {
    if |parts| > 1 {
      assert forall p :: p in parts[..|parts| - 1] ==> p in parts;
      JoinAvoids(parts[..|parts| - 1], sep, c);
    }
  }

  lemma LineHasNoNewline(r: ServerRecord)
    requires Plain(r)
    ensures '\n' !in CsvLine(r)
  {
    FieldsHaveNoComma(r);
    JoinAvoids(CsvFields(r), ",", '\n');
  }

  class DesktopDataManager {
    var records: seq<ServerRecord>
    /** The AUTOINCREMENT counter. */
    var nextId: nat

    predicate Valid()
      reads this
    {
      (forall r :: r in records ==> r.id < nextId) && Records.DistinctBy(records, Id)
    }

    /** Opens the database file holding the given table. */
    constructor (storedRecords: seq<ServerRecord>, storedNextId: nat)
      requires (forall r :: r in storedRecords ==> r.id < storedNextId) && Records.DistinctBy(storedRecords, Id)
      ensures Valid() && records == storedRecords && nextId == storedNextId
    {
      records := storedRecords;
      nextId := storedNextId;
    }

    /** Inserts each incoming record with its days remaining from now. The batch is one
        transaction: the first record that raises leaves the table as it was. */
    method AddRecords(batch: seq<Incoming>, today: Calendar.Date, microsOfDay: nat, syncTime: string)
      returns (ok: bool)
      requires Valid() && Calendar.IsValidDate(today) && microsOfDay < MicrosPerDay
      modifies this
      ensures Valid()
      ensures var c := ConvertAll(batch, DaysLeftAll(batch, today, microsOfDay), old(nextId), syncTime);
              (ok <==> c.Some?)
              && (ok ==> records == old(records) + c.value && nextId == old(nextId) + |batch|)
              && (!ok ==> records == old(records) && nextId == old(nextId))
    {
      var added := ConvertBatch(batch, today, microsOfDay, nextId, syncTime);
      if added.None? {
        return false;
      }
      FreshIds(records, nextId, batch, DaysLeftAll(batch, today, microsOfDay), syncTime);
      records := records + added.value;
      nextId := nextId + |batch|;
      ok := true;
    }

    /** The rows matching the search and status band, in the order a sort label names. */
    method GetAllRecords(sortBy: string, search: string, status: string) returns (rows: seq<ServerRecord>)
      ensures rows == Records.Query(records, View, search, status, Records.OrderOf(Records.DesktopSortLabels, sortBy))
      ensures forall r :: r in rows <==> r in records && Records.Selected(View(r), search, status)
      ensures Records.Sorted(rows, View, Records.OrderOf(Records.DesktopSortLabels, sortBy))
    {
      rows := Records.Query(records, View, search, status, Records.OrderOf(Records.DesktopSortLabels, sortBy));
      Records.QueryExact(records, View, search, status, Records.OrderOf(Records.DesktopSortLabels, sortBy));
    }

    method GetStatistics() returns (s: Records.Stats)
      ensures s == Records.Statistics(records, View)
      ensures s.total == |records| && s.expiringSoon + s.expired <= s.total
    {
      s := Records.Statistics(records, View);
      Records.StatisticsPartition(records, View);
    }

    method DeleteRecord(id: int) returns (ok: bool)
      requires Valid()
      modifies this
      ensures Valid()
      ensures ok <==> Records.Int64(id)
      ensures ok ==> records == Records.Keep(old(records), (r: ServerRecord) => r.id != id)
      ensures ok ==> forall r :: r in records <==> r in old(records) && r.id != id
      ensures !ok ==> records == old(records)
      ensures nextId == old(nextId)
    {
      if !Records.Int64(id) {
        return false;
      }
      var kept := Records.Keep(records, (r: ServerRecord) => r.id != id);
      Records.KeepDistinct(records, (r: ServerRecord) => r.id != id, Id);
      records := kept;
      ok := true;
    }

    /** The CSV export of all rows by days remaining. */
    method ExportToCsv() returns (text: string)
      ensures text == CsvText(Records.Sort(records, View, Records.DaysAsc))
    {
      var rows := GetAllRecords("days_remaining", "", "全部");
      ExportOrder();
      Records.QueryAll(records, View, "全部", Records.DaysAsc);
      var lines := CsvContent(rows);
      text := [BOM] + Join(lines, "\n");
    }
  }

  /** The export asks for the mobile key `days_remaining`, which is no desktop label, so the
      rows come by days remaining. */
  lemma ExportOrder()
    ensures Records.OrderOf(Records.DesktopSortLabels, "days_remaining") == Records.DaysAsc
  {
    assert forall i :: 0 <= i < |Records.DesktopSortLabels| ==> Records.DesktopSortLabels[i].0 != "days_remaining";
  }

  lemma CsvLinesSnoc(rows: seq<ServerRecord>, i: nat)
    requires i < |rows|
    ensures CsvLines(rows[..i + 1]) == CsvLines(rows[..i]) + [CsvLine(rows[i])]
  {
    assert rows[..i + 1][..i] == rows[..i];
  }

  /** The header line, then each row's line in turn. */
  method CsvContent(rows: seq<ServerRecord>) returns (lines: seq<string>)
    ensures lines == [HeaderLine] + CsvLines(rows)
  {
    lines := [HeaderLine];
    var i := 0;
    while i < |rows|
      invariant 0 <= i <= |rows|
      invariant lines == [HeaderLine] + CsvLines(rows[..i])
    {
      CsvLinesSnoc(rows, i);
      lines := lines + [CsvLine(rows[i])];
      i := i + 1;
    }
    assert rows[..i] == rows;
  }

  /** The INSERT loop of a sync: each record in turn, its expiry parsed and its days counted,
      stopping at the first record that raises. */
  method ConvertBatch(batch: seq<Incoming>, today: Calendar.Date, microsOfDay: nat, firstId: nat, syncTime: string)
    returns (added: Option<seq<ServerRecord>>)
    requires Calendar.IsValidDate(today) && microsOfDay < MicrosPerDay
    ensures added == ConvertAll(batch, DaysLeftAll(batch, today, microsOfDay), firstId, syncTime)
  {
    var ds := DaysLeftAll(batch, today, microsOfDay);
    var pending: seq<ServerRecord> := [];
    var i := 0;
    while i < |batch|
      invariant 0 <= i <= |batch|
      invariant ConvertAll(batch[..i], ds[..i], firstId, syncTime) == Some(pending)
    {
      var rec := batch[i];
      var days := ExpiryDays(rec, today, microsOfDay);
      assert days == ds[i];
      var row := Convert(rec, days, firstId + i, syncTime);
      ConvertNext(batch, ds, i, firstId, syncTime, pending);
      if row.None? {
        return None;
      }
      pending := pending + [row.value];
      i := i + 1;
    }
    assert batch[..i] == batch && ds[..i] == ds;
    added := Some(pending);
  }

  /** Parses a record's expiry and counts the days to it from now. */
  method ExpiryDays(rec: Incoming, today: Calendar.Date, microsOfDay: nat) returns (days: Option<int>)
    requires Calendar.IsValidDate(today) && microsOfDay < MicrosPerDay
    ensures days == DaysLeft(rec, today, microsOfDay)
  {
    days := None;
    if "expiry_date" in rec {
      var expiry := Strptime.Parse(rec["expiry_date"], Strptime.IsoFormat);
      if expiry.Some? {
        days := Some(DaysUntil(expiry.value, today, microsOfDay));
      }
    }
  }

  lemma ConvertStep(batch: seq<Incoming>, ds: seq<Option<int>>, i: nat, firstId: nat, syncTime: string)
    requires |ds| == |batch| && i < |batch|
    ensures var prev := ConvertAll(batch[..i], ds[..i], firstId, syncTime);
            var row := Convert(batch[i], ds[i], firstId + i, syncTime);
            ConvertAll(batch[..i + 1], ds[..i + 1], firstId, syncTime)
            == if prev.None? || row.None? then None else Some(prev.value + [row.value])
  {
    assert batch[..i + 1][..i] == batch[..i] && ds[..i + 1][..i] == ds[..i];
  }

  /** One more record either fails the whole batch or adds its row to the prefix's rows. */
  lemma ConvertNext(batch: seq<Incoming>, ds: seq<Option<int>>, i: nat, firstId: nat, syncTime: string,
                    pending: seq<ServerRecord>)
    requires |ds| == |batch| && i < |batch|
    requires ConvertAll(batch[..i], ds[..i], firstId, syncTime) == Some(pending)
    ensures var row := Convert(batch[i], ds[i], firstId + i, syncTime);
            (row.None? ==> ConvertAll(batch, ds, firstId, syncTime).None?)
            && (row.Some? ==> ConvertAll(batch[..i + 1], ds[..i + 1], firstId, syncTime) == Some(pending + [row.value]))
  {
    ConvertStep(batch, ds, i, firstId, syncTime);
    if Convert(batch[i], ds[i], firstId + i, syncTime).None? {
      PrefixFails(batch, ds, i + 1, firstId, syncTime);
    }
  }

  lemma {:induction false} PrefixFails(batch: seq<Incoming>, ds: seq<Option<int>>, k: nat, firstId: nat,
                                       syncTime: string)
    requires |ds| == |batch| && k <= |batch|
    requires ConvertAll(batch[..k], ds[..k], firstId, syncTime).None?
    ensures ConvertAll(batch, ds, firstId, syncTime).None?
    decreases |batch| - k
  {
    if k < |batch| {
      ConvertStep(batch, ds, k, firstId, syncTime);
      PrefixFails(batch, ds, k + 1, firstId, syncTime);
    } else {
      assert batch[..k] == batch && ds[..k] == ds;
    }
  }

  /** The new rows take the ids from the counter on, so ids stay distinct and below the moved
      counter. */
  lemma FreshIds(rows: seq<ServerRecord>, nextId: nat, batch: seq<Incoming>, ds: seq<Option<int>>, syncTime: string)
    requires |ds| == |batch|
    requires (forall r :: r in rows ==> r.id < nextId) && Records.DistinctBy(rows, Id)
    requires ConvertAll(batch, ds, nextId, syncTime).Some?
    ensures var all := rows + ConvertAll(batch, ds, nextId, syncTime).value;
            (forall r :: r in all ==> r.id < nextId + |batch|) && Records.DistinctBy(all, Id)
  {
    var added := ConvertAll(batch, ds, nextId, syncTime).value;
    ConvertAllEach(batch, ds, nextId, syncTime);
    assert forall i :: 0 <= i < |added| ==> added[i].id == nextId + i;
    var all := rows + added;
    assert forall i :: 0 <= i < |all| ==> all[i] == if i < |rows| then rows[i] else added[i - |rows|];
    forall i, j | 0 <= i < j < |all| ensures Id(all[i]) != Id(all[j]) {
      if j >= |rows| && i < |rows| {
        assert all[i] in rows;
      }
    }
  }
}
