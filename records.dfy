/** The query rules both record stores share: the expiry bands of the status filter, the
    name-or-barcode search, the orderings and the statistics. Each store's table row is seen
    through a `Row` view that exposes the columns these rules read; `days` is the stored
    `days_remaining` column. */
module Records {
  import opened Text

  /** The columns the filters, the orderings and the statistics read. */
  datatype Row = Row(name: string, barcode: string, expiry: string, days: int, scan: string)

  // ---------------------------------------------------------------------------------------
  // Bands and filters

  const NormalLabel: string := "正常"
  const SoonLabel: string := "即将过期"
  const ExpiredLabel: string := "已过期"

  /** The band a status label selects: `days_remaining > 7`, `<= 7 AND > 0`, `<= 0`; any other
      label (`全部` among them) adds no condition. */
  predicate InStatus(days: int, status: string)
  {
    if status == NormalLabel then days > 7
    else if status == SoonLabel then days <= 7 && days > 0
    else if status == ExpiredLabel then days <= 0
    else true
  }

  /** `name LIKE '%t%' OR barcode LIKE '%t%'`, added only for a non-empty search text. */
  predicate SearchHit(r: Row, search: string)
  {
    search == [] || Contains(r.name, search) || Contains(r.barcode, search)
  }

  predicate Selected(r: Row, search: string, status: string)
  {
    SearchHit(r, search) && InStatus(r.days, status)
  }

  /** Every day count is in exactly one of the three bands. */
  lemma BandsPartition(days: int)
    ensures InStatus(days, NormalLabel) || InStatus(days, SoonLabel) || InStatus(days, ExpiredLabel)
    ensures !(InStatus(days, NormalLabel) && InStatus(days, SoonLabel))
    ensures !(InStatus(days, NormalLabel) && InStatus(days, ExpiredLabel))
    ensures !(InStatus(days, SoonLabel) && InStatus(days, ExpiredLabel))
  {
  }

  /** `s` is `t` with some elements left out, the rest in their order. */
  predicate IsSubsequence<T(==,!new)>(s: seq<T>, t: seq<T>)
    decreases |t|
  {
    s == [] || (t != [] && ((s[0] == t[0] && IsSubsequence(s[1..], t[1..])) || IsSubsequence(s, t[1..])))
  }

  /** `sqlite3` binds a Python int as a 64-bit integer; one outside that range raises
      OverflowError before the statement runs. */
  predicate Int64(i: int)
  {
    -0x8000_0000_0000_0000 <= i < 0x8000_0000_0000_0000
  }

  /** An optional int parameter binds: None is NULL. */
  predicate BindsOpt(o: Option<int>)
  {
    o.None? || Int64(o.value)
  }

  /** The rows a WHERE clause keeps, in table order. */
  function Keep<T(==,!new)>(rows: seq<T>, p: T -> bool): (r: seq<T>)
    ensures forall x :: x in r <==> x in rows && p(x)
    ensures forall x :: multiset(r)[x] == if p(x) then multiset(rows)[x] else 0
    ensures IsSubsequence(r, rows)
    ensures |r| <= |rows|
  {
    if rows == [] then []
    else
      var rest := Keep(rows[1..], p);
      assert rows == [rows[0]] + rows[1..];
      if p(rows[0]) then [rows[0]] + rest else rest
  }

  /** Keeping over a sequence with one more element at the end. */
  lemma {:induction false} KeepSnoc<T(!new)>(rows: seq<T>, x: T, p: T -> bool)
    ensures Keep(rows + [x], p) == Keep(rows, p) + (if p(x) then [x] else [])
  {
    var tail := if p(x) then [x] else [];
    if rows == [] {
      assert rows + [x] == [x] && [x][1..] == [];
    } else {
      var h, t := rows[0], rows[1..];
      var head := if p(h) then [h] else [];
      assert (rows + [x])[0] == h && (rows + [x])[1..] == t + [x];
      KeepSnoc(t, x, p);
      KeepHead(rows + [x], p);
      KeepHead(rows, p);
      ConcatAssoc(head, Keep(t, p), tail);
    }
  }

  lemma ConcatAssoc<T>(a: seq<T>, b: seq<T>, c: seq<T>)
    ensures a + (b + c) == (a + b) + c
  {
  }

  /** Keeping over a non-empty sequence: its first element, if kept, then the rest kept. */
  lemma KeepHead<T(!new)>(rows: seq<T>, p: T -> bool)
    requires rows != []
    ensures Keep(rows, p) == (if p(rows[0]) then [rows[0]] else []) + Keep(rows[1..], p)
  {
  }


  /** No two rows share a key. */
  predicate DistinctBy<T>(rows: seq<T>, key: T -> int)
  {
    forall i, j :: 0 <= i < j < |rows| ==> key(rows[i]) != key(rows[j])
  }

  /** Leaving rows out keeps the keys distinct. */
  lemma {:induction false} KeepDistinct<T(!new)>(rows: seq<T>, p: T -> bool, key: T -> int)
    requires DistinctBy(rows, key)
    ensures DistinctBy(Keep(rows, p), key)
  {
    if rows != [] {
      var tail := rows[1..];
      assert DistinctBy(tail, key) by {
        assert forall i :: 0 <= i < |tail| ==> tail[i] == rows[i + 1];
      }
      KeepDistinct(tail, p, key);
      var rest := Keep(tail, p);
      if p(rows[0]) {
        forall y | y in rest ensures key(rows[0]) != key(y) {
          var j :| 0 <= j < |tail| && tail[j] == y;
          assert rows[j + 1] == y;
        }
        var r := [rows[0]] + rest;
        assert forall j :: 1 <= j < |r| ==> r[j] == rest[j - 1];
      }
    }
  }

  // ---------------------------------------------------------------------------------------
  // Orderings

  /** The four orderings the stores offer. */
  datatype Order = DaysAsc | NameAsc | ExpiryAsc | ScanDesc

  /** `a` may come before `b`: SQLite compares integers numerically and text by code point. */
  predicate Before(o: Order, a: Row, b: Row)
  {
    match o
    case DaysAsc => a.days <= b.days
    case NameAsc => LexLe(a.name, b.name)
    case ExpiryAsc => LexLe(a.expiry, b.expiry)
    case ScanDesc => LexLe(b.scan, a.scan)
  }

  lemma BeforeTotal(o: Order, a: Row, b: Row)
    ensures Before(o, a, b) || Before(o, b, a)
  {
    match o
    case DaysAsc =>
    case NameAsc => LexLeTotal(a.name, b.name);
    case ExpiryAsc => LexLeTotal(a.expiry, b.expiry);
    case ScanDesc => LexLeTotal(a.scan, b.scan);
  }

  lemma BeforeTransitive(o: Order, a: Row, b: Row, c: Row)
    requires Before(o, a, b) && Before(o, b, c)
    ensures Before(o, a, c)
  {
    match o
    case DaysAsc =>
    case NameAsc => LexLeTransitive(a.name, b.name, c.name);
    case ExpiryAsc => LexLeTransitive(a.expiry, b.expiry, c.expiry);
    case ScanDesc => LexLeTransitive(c.scan, b.scan, a.scan);
  }

  /** A `sort_by` table: each key with the ordering its `ORDER BY` names. */
  type SortTable = seq<(string, Order)>

  /** The mobile store's `sort_by` keys. */
  const MobileSortKeys: SortTable :=
    [("days_remaining", DaysAsc), ("name", NameAsc), ("expiry_date", ExpiryAsc), ("scan_date", ScanDesc)]

  /** The desktop store's `sort_by` labels, the column titles of its table. */
  const DesktopSortLabels: SortTable :=
    [("剩余天数", DaysAsc), ("产品名称", NameAsc), ("过期日期", ExpiryAsc), ("添加时间", ScanDesc)]

  /** No key appears twice, as in a dictionary. */
  predicate KeysDistinct(table: SortTable)
  {
    forall i, j :: 0 <= i < j < |table| ==> table[i].0 != table[j].0
  }

  /** `table.get(key, days_remaining ASC)`: the ordering the key names, and days remaining for
      a key the table does not hold. */
  function OrderOf(table: SortTable, key: string): (o: Order)
    requires KeysDistinct(table)
    ensures forall i :: 0 <= i < |table| && table[i].0 == key ==> o == table[i].1
    ensures (forall i :: 0 <= i < |table| ==> table[i].0 != key) ==> o == DaysAsc
    decreases |table|
  {
    if table == [] then DaysAsc
    else if table[0].0 == key then table[0].1
    else
      assert KeysDistinct(table[1..]) by {
        assert forall i :: 0 <= i < |table| - 1 ==> table[1..][i] == table[i + 1];
      }
      var o := OrderOf(table[1..], key);
      assert forall i :: 1 <= i < |table| ==> table[i] == table[1..][i - 1];
      o
  }

  /** The mobile keys name, expiry_date and scan_date (and days_remaining) pick their
      orderings; any other key orders by days remaining. */
  lemma MobileKeysOrder(key: string)
    ensures KeysDistinct(MobileSortKeys)
    ensures OrderOf(MobileSortKeys, "name") == NameAsc
    ensures OrderOf(MobileSortKeys, "expiry_date") == ExpiryAsc
    ensures OrderOf(MobileSortKeys, "scan_date") == ScanDesc
    ensures OrderOf(MobileSortKeys, "days_remaining") == DaysAsc
    ensures key !in {"name", "expiry_date", "scan_date"} ==> OrderOf(MobileSortKeys, key) == DaysAsc
  {
    var t := MobileSortKeys;
    assert t[1].0 == "name" && t[2].0 == "expiry_date" && t[3].0 == "scan_date";
  }

  /** The desktop labels 产品名称, 过期日期 and 添加时间 (and 剩余天数) pick their orderings; any
      other label orders by days remaining. */
  lemma DesktopLabelsOrder(title: string)
    ensures KeysDistinct(DesktopSortLabels)
    ensures OrderOf(DesktopSortLabels, "产品名称") == NameAsc
    ensures OrderOf(DesktopSortLabels, "过期日期") == ExpiryAsc
    ensures OrderOf(DesktopSortLabels, "添加时间") == ScanDesc
    ensures OrderOf(DesktopSortLabels, "剩余天数") == DaysAsc
    ensures title !in {"产品名称", "过期日期", "添加时间"} ==> OrderOf(DesktopSortLabels, title) == DaysAsc
  {
    var t := DesktopSortLabels;
    assert t[1].0 == "产品名称" && t[2].0 == "过期日期" && t[3].0 == "添加时间";
  }

  predicate Sorted<T>(rows: seq<T>, view: T -> Row, o: Order)
  {
    forall i, j :: 0 <= i < j < |rows| ==> Before(o, view(rows[i]), view(rows[j]))
  }

  /** `ORDER BY`: the rows in the chosen order, as a stable insertion sort (SQLite leaves the
      order of equal keys open; this model keeps table order among them). */
  function Sort<T(==,!new)>(rows: seq<T>, view: T -> Row, o: Order): (r: seq<T>)
    ensures Sorted(r, view, o)
    ensures multiset(r) == multiset(rows)
    decreases |rows|
  {
    if rows == [] then []
    else
      var init := rows[..|rows| - 1];
      assert rows == init + [rows[|rows| - 1]];
      Insert(rows[|rows| - 1], Sort(init, view, o), view, o)
  }

  /** Puts x after every row that may come before it. */
  function Insert<T(==,!new)>(x: T, rows: seq<T>, view: T -> Row, o: Order): (r: seq<T>)
    requires Sorted(rows, view, o)
    ensures Sorted(r, view, o)
    ensures multiset(r) == multiset(rows) + multiset{x}
    decreases |rows|
  {
    if rows == [] then [x]
    else if !Before(o, view(rows[0]), view(x)) then
      SortedCons(x, rows, view, o);
      [x] + rows
    else
      var rest := Insert(x, rows[1..], view, o);
      assert rows == [rows[0]] + rows[1..];
      SortedAfter(rows[0], x, rows[1..], rest, view, o);
      [rows[0]] + rest
  }

  /** x goes in front of a sorted sequence whose head must not come before it. */
  lemma SortedCons<T>(x: T, rows: seq<T>, view: T -> Row, o: Order)
    requires rows != [] && Sorted(rows, view, o) && !Before(o, view(rows[0]), view(x))
    ensures Sorted([x] + rows, view, o)
  {
    BeforeTotal(o, view(rows[0]), view(x));
    forall j | 0 <= j < |rows| ensures Before(o, view(x), view(rows[j])) {
      if j > 0 {
        BeforeTransitive(o, view(x), view(rows[0]), view(rows[j]));
      }
    }
    var r := [x] + rows;
    assert forall j :: 1 <= j < |r| ==> r[j] == rows[j - 1];
  }

  /** h stays in front of `rest`, which holds x and the sorted tail h came before. */
  lemma SortedAfter<T>(h: T, x: T, tail: seq<T>, rest: seq<T>, view: T -> Row, o: Order)
    requires Sorted([h] + tail, view, o) && Before(o, view(h), view(x))
    requires Sorted(rest, view, o) && multiset(rest) == multiset(tail) + multiset{x}
    ensures Sorted([h] + rest, view, o)
  {
    var full := [h] + tail;
    forall y | y in rest ensures Before(o, view(h), view(y)) {
      assert y in multiset(rest);
      if y != x {
        assert y in multiset(tail);
        var j :| 0 <= j < |tail| && tail[j] == y;
        assert full[0] == h && full[j + 1] == y;
        assert Before(o, view(full[0]), view(full[j + 1]));
      }
    }
    var r := [h] + rest;
    assert forall j :: 1 <= j < |r| ==> r[j] == rest[j - 1];
  }

  /** Leaving rows out of a sorted sequence keeps it sorted. */
  lemma {:induction false} KeepSorted<T(!new)>(rows: seq<T>, p: T -> bool, view: T -> Row, o: Order)
    requires Sorted(rows, view, o)
    ensures Sorted(Keep(rows, p), view, o)
  {
    if rows != [] {
      var tail := rows[1..];
      assert Sorted(tail, view, o) by {
        assert forall i :: 0 <= i < |tail| ==> tail[i] == rows[i + 1];
      }
      KeepSorted(tail, p, view, o);
      if p(rows[0]) {
        HeadFirst(rows, Keep(tail, p), view, o);
      }
    }
  }

  /** The head of a sorted sequence may come before any sorted selection of its tail. */
  lemma HeadFirst<T>(rows: seq<T>, rest: seq<T>, view: T -> Row, o: Order)
    requires rows != [] && Sorted(rows, view, o) && Sorted(rest, view, o)
    requires forall y :: y in rest ==> y in rows[1..]
    ensures Sorted([rows[0]] + rest, view, o)
  {
    forall y | y in rest ensures Before(o, view(rows[0]), view(y)) {
      var j :| 0 <= j < |rows[1..]| && rows[1..][j] == y;
      assert rows[j + 1] == y;
    }
    var r := [rows[0]] + rest;
    assert forall j :: 1 <= j < |r| ==> r[j] == rest[j - 1];
  }

  /** A query: the rows meeting the search and the status band, in the chosen order. */
  function Query<T(==,!new)>(rows: seq<T>, view: T -> Row, search: string, status: string, o: Order): seq<T>
  {
    Sort(Keep(rows, Matches(view, search, status)), view, o)
  }

  /** The WHERE clause of a query, as a test on one stored row. */
  function Matches<T>(view: T -> Row, search: string, status: string): T -> bool
  {
    x => Selected(view(x), search, status)
  }

  /** A query returns exactly the selected rows, each as often as the table holds it, sorted. */
  lemma QueryExact<T(!new)>(rows: seq<T>, view: T -> Row, search: string, status: string, o: Order)
    ensures var q := Query(rows, view, search, status, o);
            (forall x :: x in q <==> x in rows && Selected(view(x), search, status))
            && Sorted(q, view, o)
            && multiset(q) == multiset(Keep(rows, Matches(view, search, status)))
  {
    var kept := Keep(rows, Matches(view, search, status));
    var q := Sort(kept, view, o);
    forall x ensures x in q <==> x in kept {
      assert x in q <==> x in multiset(q);
      assert x in kept <==> x in multiset(kept);
    }
  }

  /** With no search text and a status that names no band (such as 全部), a query returns the
      whole table in the chosen order. */
  lemma QueryAll<T(!new)>(rows: seq<T>, view: T -> Row, status: string, o: Order)
    requires status != NormalLabel && status != SoonLabel && status != ExpiredLabel
    ensures Query(rows, view, "", status, o) == Sort(rows, view, o)
  {
    KeepEvery(rows, Matches(view, "", status));
  }

  lemma {:induction false} KeepEvery<T(!new)>(rows: seq<T>, p: T -> bool)
    requires forall x :: x in rows ==> p(x)
    ensures Keep(rows, p) == rows
  {
    if rows != [] {
      KeepEvery(rows[1..], p);
    }
  }

  // ---------------------------------------------------------------------------------------
  // Statistics

  datatype Stats = Stats(total: nat, expiringSoon: nat, expired: nat)

  /** `COUNT(*)`, and the counts of the 即将过期 and 已过期 bands. */
  function Statistics<T(==,!new)>(rows: seq<T>, view: T -> Row): Stats
  {
    Stats(|rows|, |Keep(rows, x => InStatus(view(x).days, SoonLabel))|,
          |Keep(rows, x => InStatus(view(x).days, ExpiredLabel))|)
  }

  /** The three bands split the table: their counts add up to the total, so the two counted
      bands never exceed it. */
  lemma StatisticsPartition<T(!new)>(rows: seq<T>, view: T -> Row)
    ensures var s := Statistics(rows, view);
            s.expiringSoon + s.expired + |Keep(rows, x => InStatus(view(x).days, NormalLabel))| == s.total
            && s.expiringSoon + s.expired <= s.total
  {
    BandCounts(rows, view);
  }

  lemma {:induction false} BandCounts<T(!new)>(rows: seq<T>, view: T -> Row)
    ensures |Keep(rows, x => InStatus(view(x).days, SoonLabel))|
            + |Keep(rows, x => InStatus(view(x).days, ExpiredLabel))|
            + |Keep(rows, x => InStatus(view(x).days, NormalLabel))| == |rows|
  {
    if rows != [] {
      BandCounts(rows[1..], view);
      BandsPartition(view(rows[0]).days);
    }
  }
}
