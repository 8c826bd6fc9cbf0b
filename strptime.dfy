/** Python's `datetime.strptime(text, fmt).date()` for the date formats the OCR parser tries.
    `_strptime` turns each directive into a regular expression (`%Y` four digits, `%m` and
    `%d` one or two digits), runs `re.match` on the text, rejects the text when the match does
    not reach its end ("unconverted data remains"), and then builds the date, which raises
    ValueError when the fields are not a real date. */
module Strptime {
  import opened Text
  import opened Regex
  import Calendar

  /** Which group holds the year, the month and the day. */
  datatype FieldOrder = YMD | DMY | MDY

  /** A format: the regular expression `_strptime` compiles for it and its field order. */
  datatype DateFormat = DateFormat(pattern: Pattern, order: FieldOrder)

  /** `%Y`: `\d\d\d\d`. */
  const YearAlts: seq<Alt> := [[Digit, Digit, Digit, Digit]]

  /** `%m`: `1[0-2]|0[1-9]|[1-9]`. */
  const MonthAlts: seq<Alt> :=
    [[OneOf("1"), Range('0', '2')], [OneOf("0"), Range('1', '9')], [Range('1', '9')]]

  /** `%d`: `3[0-1]|[1-2]\d|0[1-9]|[1-9]| [1-9]`. */
  const DayAlts: seq<Alt> :=
    [[OneOf("3"), Range('0', '1')], [Range('1', '2'), Digit], [OneOf("0"), Range('1', '9')],
     [Range('1', '9')], [OneOf(" "), Range('1', '9')]]

  function Lit(c: char): Elem { Char(OneOf([c])) }

  /** `%Y<sep>%m<sep>%d` */
  function YmdFormat(sep: char): DateFormat
  {
    DateFormat([Group(YearAlts), Lit(sep), Group(MonthAlts), Lit(sep), Group(DayAlts)], YMD)
  }

  /** `%d<sep>%m<sep>%Y` */
  function DmyFormat(sep: char): DateFormat
  {
    DateFormat([Group(DayAlts), Lit(sep), Group(MonthAlts), Lit(sep), Group(YearAlts)], DMY)
  }

  /** `%m<sep>%d<sep>%Y` */
  function MdyFormat(sep: char): DateFormat
  {
    DateFormat([Group(MonthAlts), Lit(sep), Group(DayAlts), Lit(sep), Group(YearAlts)], MDY)
  }

  /** `%Y年%m月%d日` */
  const ChineseFormat: DateFormat :=
    DateFormat([Group(YearAlts), Lit('年'), Group(MonthAlts), Lit('月'), Group(DayAlts), Lit('日')], YMD)

  /** `%Y-%m-%d`, the format the database stores dates in. */
  const IsoFormat: DateFormat := YmdFormat('-')

  /** Orders a match's three groups as (year, month, day). */
  function Arrange(g: seq<string>, order: FieldOrder): (string, string, string)
    requires |g| == 3
  {
    match order
    case YMD => (g[0], g[1], g[2])
    case DMY => (g[2], g[1], g[0])
    case MDY => (g[2], g[0], g[1])
  }

  /** `int()` of a captured field: `int(' 5')` is 5, so a leading space is dropped. */
  function FieldValue(t: string): nat
  {
    var u := if t != [] && t[0] == ' ' then t[1..] else t;
    if AllDigits(u) then DigitsValue(u) else 0
  }

  /** `datetime.strptime(text, fmt).date()`, None where it raises ValueError. */
  function Parse(text: string, fmt: DateFormat): (r: Option<Calendar.Date>)
    ensures r.Some? <==> var m := MatchAt(fmt.pattern, text, 0);
                         m.Some? && m.value.end == |text| && |m.value.groups| == 3
                         && Calendar.IsValidDate(FieldsDate(m.value.groups, fmt.order))
    ensures r.Some? ==> r.value == FieldsDate(MatchAt(fmt.pattern, text, 0).value.groups, fmt.order)
  {
    var m := MatchAt(fmt.pattern, text, 0);
    if m.None? || m.value.end != |text| || |m.value.groups| != 3 then None
    else
      var d := FieldsDate(m.value.groups, fmt.order);
      if Calendar.IsValidDate(d) then Some(d) else None
  }

  function FieldsDate(g: seq<string>, order: FieldOrder): Calendar.Date
    requires |g| == 3
  {
    var (y, m, d) := Arrange(g, order);
    Calendar.Date(FieldValue(y), FieldValue(m), FieldValue(d))
  }

  // ---------------------------------------------------------------------------------------
  // Digit texts the month and day directives accept.

  /** One or two ASCII digits whose value is a month number. */
  predicate MonthDigits(t: string)
  {
    1 <= |t| <= 2 && AllDigits(t) && 1 <= DigitsValue(t) <= 12
  }

  /** One or two ASCII digits whose value is a day number. */
  predicate DayDigits(t: string)
  {
    1 <= |t| <= 2 && AllDigits(t) && 1 <= DigitsValue(t) <= 31
  }

  // ---------------------------------------------------------------------------------------
  // How the matcher treats a group followed by a one-character class, and a group that ends
  // the pattern.

  function Prepend(t: string, r: Option<Match>): Option<Match>
  {
    if r.Some? then Some(Match(r.value.end, [t] + r.value.groups)) else None
  }

  /** Some alternative from j on has width w and fits the w characters at i. */
  predicate WidthFits(alts: seq<Alt>, j: nat, s: string, i: nat, w: nat)
  {
    i + w <= |s| && exists k :: j <= k < |alts| && |alts[k]| == w && Fits(s[i..i + w], alts[k])
  }

  /** A group followed by a one-character class, when only alternatives of width w can be
      followed by that class: the group captures the w characters at i or nothing matches. */
  lemma {:induction false} GroupBeforeChar(p: Pattern, s: string, i: nat, j: nat, w: nat)
    requires |p| >= 2 && p[0].Group? && p[1].Char? && i + w < |s|
    requires forall k :: j <= k < |p[0].alts| && i + |p[0].alts[k]| < |s|
               && Fits(s[i..i + |p[0].alts[k]|], p[0].alts[k]) && |p[0].alts[k]| != w
               ==> !InClass(s[i + |p[0].alts[k]|], p[1].cc)
    ensures TryAlts(p, s, i, j) ==
              if WidthFits(p[0].alts, j, s, i, w) then Prepend(s[i..i + w], MatchAt(p[1..], s, i + w)) else None
    decreases |p[0].alts| - j
  {
    var alts := p[0].alts;
    if j < |alts| {
      var a := alts[j];
      var rest := p[1..];
      assert rest[0] == p[1];
      GroupBeforeChar(p, s, i, j + 1, w);
      if i + |a| <= |s| && Fits(s[i..i + |a|], a) && |a| != w {
        if i + |a| < |s| {
          assert !InClass(s[i + |a|], p[1].cc);
        }
        assert MatchAt(rest, s, i + |a|).None?;
      }
      if WidthFits(alts, j, s, i, w) && !WidthFits(alts, j + 1, s, i, w) {
        assert |a| == w && Fits(s[i..i + w], a);
      }
    }
  }

  /** A group that ends the pattern captures its first fitting alternative. */
  lemma {:induction false} GroupAtEnd(p: Pattern, s: string, i: nat, j: nat, k: nat)
    requires |p| == 1 && p[0].Group? && i <= |s| && j <= k < |p[0].alts|
    requires i + |p[0].alts[k]| <= |s| && Fits(s[i..i + |p[0].alts[k]|], p[0].alts[k])
    requires forall k' :: j <= k' < k ==> !(i + |p[0].alts[k']| <= |s| && Fits(s[i..i + |p[0].alts[k']|], p[0].alts[k']))
    ensures TryAlts(p, s, i, j) == Some(Match(i + |p[0].alts[k]|, [s[i..i + |p[0].alts[k]|]]))
    decreases k - j
  {
    if j < k {
      GroupAtEnd(p, s, i, j + 1, k);
    } else {
      var w := |p[0].alts[k]|;
      assert p[1..] == [];
      assert MatchAt(p[1..], s, i + w) == Some(Match(i + w, []));
      assert [s[i..i + w]] + [] == [s[i..i + w]];
    }
  }

  /** A month text followed by a character that is not a digit: `%m` captures exactly it. */
  lemma MonthGroup(p: Pattern, s: string, i: nat, m: string)
    requires |p| >= 2 && p[0] == Group(MonthAlts) && p[1].Char? && (forall c :: InClass(c, p[1].cc) ==> !IsDigit(c))
    requires MonthDigits(m) && i + |m| < |s| && s[i..i + |m|] == m && InClass(s[i + |m|], p[1].cc)
    ensures MatchAt(p, s, i) == Prepend(m, MatchAt(p[1..], s, i + |m|))
  {
    var w := |m|;
    if w == 2 {
      MonthFitsTwo(p, s, i, m);
    } else {
      MonthFitsOne(p, s, i, m);
    }
    GroupBeforeChar(p, s, i, 0, w);
  }

  lemma MonthFitsTwo(p: Pattern, s: string, i: nat, m: string)
    requires |p| >= 2 && p[0] == Group(MonthAlts)
    requires MonthDigits(m) && |m| == 2 && i + 2 < |s| && s[i..i + 2] == m
    ensures WidthFits(MonthAlts, 0, s, i, 2)
  {
    TwoDigitsValue(m);
    var k := if m[0] == '1' then 0 else 1;
    assert Fits(s[i..i + 2], MonthAlts[k]);
  }

  lemma MonthFitsOne(p: Pattern, s: string, i: nat, m: string)
    requires |p| >= 2 && p[0] == Group(MonthAlts) && p[1].Char? && (forall c :: InClass(c, p[1].cc) ==> !IsDigit(c))
    requires MonthDigits(m) && |m| == 1 && i + 1 < |s| && s[i..i + 1] == m && InClass(s[i + 1], p[1].cc)
    ensures WidthFits(MonthAlts, 0, s, i, 1)
    ensures !Fits(s[i..i + 2], MonthAlts[0]) && !Fits(s[i..i + 2], MonthAlts[1])
  {
    OneDigitValue(m);
    assert Fits(s[i..i + 1], MonthAlts[2]);
  }

  /** A day text that ends the text: `%d` captures exactly it. */
  lemma DayAtEnd(p: Pattern, s: string, i: nat, d: string)
    requires p == [Group(DayAlts)] && DayDigits(d) && i + |d| == |s| && s[i..] == d
    ensures MatchAt(p, s, i) == Some(Match(|s|, [d]))
  {
    if |d| == 1 {
      DayAtEndOne(p, s, i, d);
    } else {
      DayAtEndTwo(p, s, i, d);
    }
  }

  lemma DayAtEndOne(p: Pattern, s: string, i: nat, d: string)
    requires p == [Group(DayAlts)] && DayDigits(d) && |d| == 1 && i + 1 == |s| && s[i..] == d
    ensures MatchAt(p, s, i) == Some(Match(|s|, [d]))
  {
    OneDigitValue(d);
    assert s[i..i + 1] == d;
    GroupAtEnd(p, s, i, 0, 3);
  }

  lemma DayAtEndTwo(p: Pattern, s: string, i: nat, d: string)
    requires p == [Group(DayAlts)] && DayDigits(d) && |d| == 2 && i + 2 == |s| && s[i..] == d
    ensures MatchAt(p, s, i) == Some(Match(|s|, [d]))
  {
    TwoDigitsValue(d);
    assert s[i..i + 2] == d;
    var k := if d[0] == '3' then 0 else if d[0] == '1' || d[0] == '2' then 1 else 2;
    GroupAtEnd(p, s, i, 0, k);
  }

  /** A four-digit year followed by a character of the next class. */
  lemma YearGroup(p: Pattern, s: string, i: nat)
    requires |p| >= 2 && p[0] == Group(YearAlts) && p[1].Char?
    requires i + 4 < |s| && AllDigits(s[i..i + 4]) && InClass(s[i + 4], p[1].cc)
    ensures MatchAt(p, s, i) == Prepend(s[i..i + 4], MatchAt(p[1..], s, i + 4))
  {
    GroupBeforeChar(p, s, i, 0, 4);
    assert Fits(s[i..i + 4], YearAlts[0]);
  }

  /** `YYYY<sep>M<sep>D` matches `%Y<sep>%m<sep>%d` as a whole, capturing the three fields. */
  lemma YmdMatch(sep: char, y: string, m: string, d: string)
    requires !IsDigit(sep) && |y| == 4 && AllDigits(y) && MonthDigits(m) && DayDigits(d)
    ensures MatchAt(YmdFormat(sep).pattern, y + [sep] + m + [sep] + d, 0)
            == Some(Match(|y + [sep] + m + [sep] + d|, [y, m, d]))
  {
    var p := YmdFormat(sep).pattern;
    YmdMatchOn(p, sep, y, m, d);
  }

  lemma YmdMatchOn(p: Pattern, sep: char, y: string, m: string, d: string)
    requires |p| == 5 && p[0] == Group(YearAlts) && p[1] == Lit(sep) && p[2] == Group(MonthAlts)
             && p[3] == Lit(sep) && p[4] == Group(DayAlts)
    requires !IsDigit(sep) && |y| == 4 && AllDigits(y) && MonthDigits(m) && DayDigits(d)
    ensures MatchAt(p, y + [sep] + m + [sep] + d, 0) == Some(Match(|y + [sep] + m + [sep] + d|, [y, m, d]))
  {
    var s := y + [sep] + m + [sep] + d;
    FieldSlices(y, sep, m, d);
    MonthDayTail(p[1..], sep, s, m, d);
    assert s[0..4] == y;
    assert AllDigits(s[0..4]) && InClass(s[4], p[1].cc);
    YearGroup(p, s, 0);
    assert [y] + [m, d] == [y, m, d];
  }

  /** `<sep>%m<sep>%d` on `<sep>M<sep>D` at the end of the text. */
  lemma MonthDayTail(p: Pattern, sep: char, s: string, m: string, d: string)
    requires |p| == 4 && p[0] == Lit(sep) && p[1] == Group(MonthAlts) && p[2] == Lit(sep) && p[3] == Group(DayAlts)
    requires !IsDigit(sep) && MonthDigits(m) && DayDigits(d)
    requires |s| == 6 + |m| + |d| && s[4] == sep && s[5..5 + |m|] == m && s[5 + |m|] == sep && s[6 + |m|..] == d
    ensures MatchAt(p, s, 4) == Some(Match(|s|, [m, d]))
  {
    var i := 5 + |m|;
    DayTail(p[2..], sep, s, i, d);
    assert p[1..][1..] == p[2..];
    MonthGroup(p[1..], s, 5, m);
    assert [m] + [d] == [m, d];
    LitStep(p, s, 4, sep);
  }

  /** `<sep>%d` on `<sep>D` at the end of the text. */
  lemma DayTail(p: Pattern, sep: char, s: string, i: nat, d: string)
    requires |p| == 2 && p[0] == Lit(sep) && p[1] == Group(DayAlts)
    requires DayDigits(d) && i + 1 + |d| == |s| && s[i] == sep && s[i + 1..] == d
    ensures MatchAt(p, s, i) == Some(Match(|s|, [d]))
  {
    assert p[1..] == [Group(DayAlts)];
    DayAtEnd(p[1..], s, i + 1, d);
    LitStep(p, s, i, sep);
  }

  /** A literal character that the text has at i is consumed. */
  lemma LitStep(p: Pattern, s: string, i: nat, c: char)
    requires p != [] && p[0] == Lit(c) && i < |s| && s[i] == c
    ensures MatchAt(p, s, i) == MatchAt(p[1..], s, i + 1)
  {
  }

  /** `YYYY-M-D` with one- or two-digit month and day parses with `%Y-%m-%d` exactly when the
      three numbers make a real date. */
  lemma IsoDashParse(y: string, m: string, d: string)
    requires |y| == 4 && AllDigits(y) && MonthDigits(m) && DayDigits(d)
    ensures var date := Calendar.Date(DigitsValue(y), DigitsValue(m), DigitsValue(d));
            Parse(y + "-" + m + "-" + d, IsoFormat) == if Calendar.IsValidDate(date) then Some(date) else None
  {
    YmdMatch('-', y, m, d);
    assert y[0] != ' ' && m[0] != ' ' && d[0] != ' ';
    assert FieldsDate([y, m, d], YMD) == Calendar.Date(DigitsValue(y), DigitsValue(m), DigitsValue(d));
  }

  /** A real date written by `strftime('%Y-%m-%d')` reads back as the same date. */
  lemma IsoRoundTrip(date: Calendar.Date)
    requires Calendar.IsValidDate(date)
    ensures Parse(Calendar.FormatIso(date), IsoFormat) == Some(date)
  {
    var s := Calendar.FormatIso(date);
    IsoPieces(date);
    IsoDashParse(s[..4], s[5..7], s[8..]);
  }

  /** The three fields of `YYYY-MM-DD` are the texts the directives accept. */
  lemma IsoPieces(date: Calendar.Date)
    requires Calendar.IsValidDate(date)
    ensures var s := Calendar.FormatIso(date);
            s == s[..4] + "-" + s[5..7] + "-" + s[8..]
            && |s[..4]| == 4 && AllDigits(s[..4]) && MonthDigits(s[5..7]) && DayDigits(s[8..])
            && Calendar.Date(DigitsValue(s[..4]), DigitsValue(s[5..7]), DigitsValue(s[8..])) == date
  {
    var s := Calendar.FormatIso(date);
    SplitAtDashes(s);
    Calendar.FormatIsoFields(date);
  }

  lemma SplitAtDashes(s: string)
    requires |s| == 10 && s[4] == '-' && s[7] == '-'
    ensures s == s[..4] + "-" + s[5..7] + "-" + s[8..]
  {
  }
}
