/** The text side of the OCR scanner: picking a date out of recognised text
    (`OCRProcessor._extract_date`) and turning a date text into a date
    (`OCRProcessor.parse_date`). The camera, Tesseract and the UI callbacks are not modelled. */
module OcrProcessor {
  import opened Text
  import opened Regex
  import opened Strptime
  import Calendar

  // ---------------------------------------------------------------------------------------
  // The seven extraction patterns.

  /** `(20\d{2})` */
  const Year20Alts: seq<Alt> := [[OneOf("2"), OneOf("0"), Digit, Digit]]

  /** `(0?[1-9]|1[0-2])`: `0?` is tried with the zero first. */
  const MonthAlts2: seq<Alt> := [[OneOf("0"), Range('1', '9')], [Range('1', '9')], [OneOf("1"), Range('0', '2')]]

  /** `(0?[1-9]|[12]\d|3[01])` */
  const DayAlts2: seq<Alt> :=
    [[OneOf("0"), Range('1', '9')], [Range('1', '9')], [OneOf("12"), Digit], [OneOf("3"), OneOf("01")]]

  /** `[\-/\.]`, `[\-/\.年]`, `[\-/\.月]`, `[：:]` */
  const Sep: Elem := Char(OneOf("-/."))
  const SepYear: Elem := Char(OneOf("-/.年"))
  const SepMonth: Elem := Char(OneOf("-/.月"))

  /** `生产日期[：:]` */
  const ProductionLabel: Pattern := [Lit('生'), Lit('产'), Lit('日'), Lit('期'), Char(OneOf("：:"))]

  const YearG: Elem := Group(Year20Alts)
  const MonthG: Elem := Group(MonthAlts2)
  const DayG: Elem := Group(DayAlts2)

  /** A pattern with the field order its branch uses to build `year-month-day`. */
  datatype DatePattern = DatePattern(pattern: Pattern, order: FieldOrder)

  /** The patterns in the order they are tried. The order each branch picks follows the
      pattern's opening text: `\b(20\d{2})` and `生产日期[：:](20\d{2})` and `(20\d{2})年` give
      year-month-day, a leading day group gives day-month-year, a leading month group
      month-day-year. */
  const DatePatterns: seq<DatePattern> := [
    DatePattern([Boundary, YearG, SepYear, MonthG, SepMonth, DayG, Optional('日'), Boundary], YMD),
    DatePattern([Boundary, DayG, Sep, MonthG, Sep, YearG, Boundary], DMY),
    DatePattern([Boundary, MonthG, Sep, DayG, Sep, YearG, Boundary], MDY),
    DatePattern(ProductionLabel + [YearG, SepYear, MonthG, SepMonth, DayG, Optional('日')], YMD),
    DatePattern(ProductionLabel + [DayG, Sep, MonthG, Sep, YearG], DMY),
    DatePattern(ProductionLabel + [MonthG, Sep, DayG, Sep, YearG], MDY),
    DatePattern([YearG, Lit('年'), MonthG, Lit('月'), DayG, Lit('日')], YMD)
  ]

  /** The groups of every pattern, in the order its field order expects. */
  function GroupsFor(order: FieldOrder): seq<seq<Alt>>
  {
    match order
    case YMD => [Year20Alts, MonthAlts2, DayAlts2]
    case DMY => [DayAlts2, MonthAlts2, Year20Alts]
    case MDY => [MonthAlts2, DayAlts2, Year20Alts]
  }

  /** Every pattern consumes at least one character and has the three groups of its order. */
  lemma PatternFacts(k: nat)
    requires k < |DatePatterns|
    ensures MinWidth(DatePatterns[k].pattern) >= 1
    ensures GroupAlts(DatePatterns[k].pattern) == GroupsFor(DatePatterns[k].order)
  {
    if k == 0 { PatternFacts0(); }
    else if k == 1 { PatternFacts1(); }
    else if k == 2 { PatternFacts2(); }
    else if k == 3 { PatternFacts3(); }
    else if k == 4 { PatternFacts4(); }
    else if k == 5 { PatternFacts5(); }
    else if k == 6 { PatternFacts6(); }
  }

  lemma PatternFacts0()
    ensures MinWidth(DatePatterns[0].pattern) >= 1
    ensures GroupAlts(DatePatterns[0].pattern) == GroupsFor(DatePatterns[0].order)
  {
    var p := DatePatterns[0].pattern;
    assert |p| == 8;
    Step(p); Step(p[1..]); Step(p[2..]); Step(p[3..]); Step(p[4..]); Step(p[5..]); Step(p[6..]); Step(p[7..]); Step(p[8..]);
  }

  lemma PatternFacts1()
    ensures MinWidth(DatePatterns[1].pattern) >= 1
    ensures GroupAlts(DatePatterns[1].pattern) == GroupsFor(DatePatterns[1].order)
  {
    var p := DatePatterns[1].pattern;
    assert |p| == 7;
    Step(p); Step(p[1..]); Step(p[2..]); Step(p[3..]); Step(p[4..]); Step(p[5..]); Step(p[6..]); Step(p[7..]);
  }

  lemma PatternFacts2()
    ensures MinWidth(DatePatterns[2].pattern) >= 1
    ensures GroupAlts(DatePatterns[2].pattern) == GroupsFor(DatePatterns[2].order)
  {
    var p := DatePatterns[2].pattern;
    assert |p| == 7;
    Step(p); Step(p[1..]); Step(p[2..]); Step(p[3..]); Step(p[4..]); Step(p[5..]); Step(p[6..]); Step(p[7..]);
  }

  lemma PatternFacts3()
    ensures MinWidth(DatePatterns[3].pattern) >= 1
    ensures GroupAlts(DatePatterns[3].pattern) == GroupsFor(DatePatterns[3].order)
  {
    var t: Pattern := [YearG, SepYear, MonthG, SepMonth, DayG, Optional('日')];
    assert DatePatterns[3].pattern == ProductionLabel + t;
    LabelFirst(t);
    Step(t); Step(t[1..]); Step(t[2..]); Step(t[3..]); Step(t[4..]); Step(t[5..]); Step(t[6..]);
  }

  lemma PatternFacts4()
    ensures MinWidth(DatePatterns[4].pattern) >= 1
    ensures GroupAlts(DatePatterns[4].pattern) == GroupsFor(DatePatterns[4].order)
  {
    var t: Pattern := [DayG, Sep, MonthG, Sep, YearG];
    assert DatePatterns[4].pattern == ProductionLabel + t;
    LabelFirst(t);
    Step(t); Step(t[1..]); Step(t[2..]); Step(t[3..]); Step(t[4..]); Step(t[5..]);
  }

  lemma PatternFacts5()
    ensures MinWidth(DatePatterns[5].pattern) >= 1
    ensures GroupAlts(DatePatterns[5].pattern) == GroupsFor(DatePatterns[5].order)
  {
    var t: Pattern := [MonthG, Sep, DayG, Sep, YearG];
    assert DatePatterns[5].pattern == ProductionLabel + t;
    LabelFirst(t);
    Step(t); Step(t[1..]); Step(t[2..]); Step(t[3..]); Step(t[4..]); Step(t[5..]);
  }

  lemma PatternFacts6()
    ensures MinWidth(DatePatterns[6].pattern) >= 1
    ensures GroupAlts(DatePatterns[6].pattern) == GroupsFor(DatePatterns[6].order)
  {
    var p := DatePatterns[6].pattern;
    assert |p| == 6;
    Step(p); Step(p[1..]); Step(p[2..]); Step(p[3..]); Step(p[4..]); Step(p[5..]); Step(p[6..]);
  }

  /** The label `生产日期[：:]` before a pattern adds five characters and no group. */
  lemma LabelFirst(t: Pattern)
    ensures MinWidth(ProductionLabel + t) == 5 + MinWidth(t)
    ensures GroupAlts(ProductionLabel + t) == GroupAlts(t)
  {
    var p := ProductionLabel + t;
    assert p[5..] == t;
    Step(p); Step(p[1..]); Step(p[2..]); Step(p[3..]); Step(p[4..]);
  }

  /** A `(20\d{2})` capture. */
  predicate Year20(t: string)
  {
    |t| == 4 && t[0] == '2' && t[1] == '0' && AllDigits(t)
  }

  lemma YearCapture(t: string)
    requires FitsSome(t, Year20Alts)
    ensures Year20(t) && AllDigits(t)
  {
    assert Fits(t, Year20Alts[0]);
  }

  /** A month capture is a month number written with one or two digits. */
  lemma MonthCapture(t: string)
    requires FitsSome(t, MonthAlts2)
    ensures MonthDigits(t)
  {
    var k :| 0 <= k < |MonthAlts2| && Fits(t, MonthAlts2[k]);
    if |t| == 1 {
      OneDigitValue(t);
    } else {
      TwoDigitsValue(t);
    }
  }

  /** A day capture is a day number written with one or two digits. */
  lemma DayCapture(t: string)
    requires FitsSome(t, DayAlts2)
    ensures DayDigits(t)
  {
    var k :| 0 <= k < |DayAlts2| && Fits(t, DayAlts2[k]);
    if |t| == 1 {
      OneDigitValue(t);
    } else {
      TwoDigitsValue(t);
    }
  }

  /** The three captures of patterns k.. as (year, month, day) texts: the first pattern with
      any match decides, through the first element of its `findall`, its leftmost match. */
  function ExtractFrom(text: string, k: nat): (r: Option<(string, string, string)>)
    requires k <= |DatePatterns|
    ensures r.Some? ==> Year20(r.value.0) && MonthDigits(r.value.1) && DayDigits(r.value.2)
    ensures r.Some? ==> DecidedFrom(text, k, r.value)
    ensures r.None? <==> forall j :: k <= j < |DatePatterns| ==> MatchesNowhere(text, j)
    decreases |DatePatterns| - k
  {
    if k == |DatePatterns| then None
    else
      PatternFacts(k);
      var dp := DatePatterns[k];
      var ms := FindAll(dp.pattern, text);
      if ms != [] then
        HeadDecides(text, k);
        Some(Arrange(ms[0], dp.order))
      else
        var r := ExtractFrom(text, k + 1);
        NothingHere(text, k, r);
        r
  }

  /** When pattern k finds something, its first `findall` element, rearranged, is a
      well-shaped date text decided by pattern k. */
  lemma HeadDecides(text: string, k: nat)
    requires k < |DatePatterns|
    ensures MinWidth(DatePatterns[k].pattern) >= 1
    ensures var ms := FindAll(DatePatterns[k].pattern, text);
            ms != [] ==>
              |ms[0]| == 3 && !MatchesNowhere(text, k)
              && var f := Arrange(ms[0], DatePatterns[k].order);
                 Year20(f.0) && MonthDigits(f.1) && DayDigits(f.2) && DecidedBy(text, k, k, f)
                 && DecidedFrom(text, k, f)
  {
    PatternFacts(k);
    var dp := DatePatterns[k];
    var ms := FindAll(dp.pattern, text);
    FindAllHead(dp.pattern, text);
    if ms != [] {
      var g := ms[0];
      assert forall x :: 0 <= x < 3 ==> FitsSome(g[x], GroupsFor(dp.order)[x]);
      CaptureShapes(g, dp.order);
      var at := SearchFrom(dp.pattern, text, 0).value.0;
      assert MatchAt(DatePatterns[k].pattern, text, at).Some?;
      assert DecidedBy(text, k, k, Arrange(g, dp.order));
    }
  }

  /** When pattern k finds nothing, it matches nowhere, and what a later pattern decides from
      k + 1 on it decides from k on. */
  lemma NothingHere(text: string, k: nat, r: Option<(string, string, string)>)
    requires k < |DatePatterns|
    requires MinWidth(DatePatterns[k].pattern) >= 1 && FindAll(DatePatterns[k].pattern, text) == []
    ensures MatchesNowhere(text, k)
    ensures r.Some? && DecidedFrom(text, k + 1, r.value) ==> DecidedFrom(text, k, r.value)
  {
    FindAllHead(DatePatterns[k].pattern, text);
    if r.Some? && DecidedFrom(text, k + 1, r.value) {
      var j :| k + 1 <= j < |DatePatterns| && DecidedBy(text, k + 1, j, r.value);
      assert DecidedBy(text, k, j, r.value);
    }
  }

  /** Some pattern from k on decides `fields`. */
  predicate DecidedFrom(text: string, k: nat, fields: (string, string, string))
  {
    exists j :: k <= j < |DatePatterns| && DecidedBy(text, k, j, fields)
  }

  /** Pattern j is the first from k that matches the text, and `fields` are the groups of its
      leftmost match, rearranged into year, month and day by the pattern's field order. */
  predicate DecidedBy(text: string, k: nat, j: nat, fields: (string, string, string))
    requires k <= j < |DatePatterns|
  {
    (forall i :: k <= i < j ==> MatchesNowhere(text, i))
    && var m := SearchFrom(DatePatterns[j].pattern, text, 0);
       m.Some? && |m.value.1.groups| == 3 && fields == Arrange(m.value.1.groups, DatePatterns[j].order)
  }

  /** Pattern j matches at no position of the text. */
  predicate MatchesNowhere(text: string, j: nat)
    requires j < |DatePatterns|
  {
    forall i :: 0 <= i <= |text| ==> MatchAt(DatePatterns[j].pattern, text, i).None?
  }

  lemma CaptureShapes(g: seq<string>, order: FieldOrder)
    requires |g| == 3 && forall x :: 0 <= x < 3 ==> FitsSome(g[x], GroupsFor(order)[x])
    ensures var (y, m, d) := Arrange(g, order); Year20(y) && MonthDigits(m) && DayDigits(d)
  {
    match order
    case YMD => YearCapture(g[0]); MonthCapture(g[1]); DayCapture(g[2]);
    case DMY => DayCapture(g[0]); MonthCapture(g[1]); YearCapture(g[2]);
    case MDY => MonthCapture(g[0]); DayCapture(g[1]); YearCapture(g[2]);
  }

  /** `_extract_date(text)`: `year-month-day` with the captured digits as written, or None. */
  function ExtractDate(text: string): (r: Option<string>)
    ensures r.Some? <==> ExtractFrom(text, 0).Some?
    ensures r.Some? ==> var (y, m, d) := ExtractFrom(text, 0).value; r.value == y + "-" + m + "-" + d
    ensures r.None? <==> forall j :: 0 <= j < |DatePatterns| ==> MatchesNowhere(text, j)
  {
    var f := ExtractFrom(text, 0);
    if f.None? then None else Some(f.value.0 + "-" + f.value.1 + "-" + f.value.2)
  }

  /** `_extract_date('05/06/2024')`: the year-first pattern matches nowhere, so the day-first
      pattern decides and its captures are rearranged into `2024-06-05`. */
  lemma DayFirstExtracted()
    ensures ExtractDate("05/06/2024") == Some("2024-06-05")
  {
    DayFirstExtraction("05/06/2024");
  }

  lemma DayFirstExtraction(s: string)
    requires |s| == 10 && s[0..2] == "05" && s[2] == '/' && s[3..5] == "06" && s[5] == '/' && s[6..10] == "2024"
    requires forall i :: 0 <= i < |s| - 4 ==> s[i] != '2'
    ensures ExtractDate(s) == Some("2024-06-05")
  {
    DayFirstMatch(s);
    BoundaryYearBlocked(DatePatterns[0].pattern, s);
    SecondPatternDecides(s, Match(10, ["05", "06", "2024"]));
    assert Arrange(["05", "06", "2024"], DMY) == ("2024", "06", "05");
    Joined(s, ("2024", "06", "05"));
    DashedText();
  }

  lemma DashedText()
    ensures "2024" + "-" + "06" + "-" + "05" == "2024-06-05"
  {
  }

  lemma Joined(s: string, f: (string, string, string))
    requires ExtractFrom(s, 0) == Some(f)
    ensures ExtractDate(s) == Some(f.0 + "-" + f.1 + "-" + f.2)
  {
  }

  /** When the year-first pattern matches nowhere and the day-first pattern matches at the
      start, the day-first captures decide. */
  lemma SecondPatternDecides(s: string, m: Match)
    requires MatchesNowhere(s, 0) && MatchAt(DatePatterns[1].pattern, s, 0) == Some(m) && |m.groups| == 3
    ensures ExtractFrom(s, 0) == Some(Arrange(m.groups, DMY))
  {
    PatternFacts(0);
    FindAllHead(DatePatterns[0].pattern, s);
    PatternFacts(1);
    FindAllHead(DatePatterns[1].pattern, s);
    assert SearchFrom(DatePatterns[1].pattern, s, 0) == Some((0, m));
  }

  /** `\b(20\d{2})` and a separator: no match where no `2` starts four characters before the
      end. */
  lemma BoundaryYearBlocked(p: Pattern, s: string)
    requires |p| >= 3 && p[0] == Boundary && p[1] == YearG && p[2].Char?
    requires forall i :: 0 <= i < |s| - 4 ==> s[i] != '2'
    ensures forall i :: 0 <= i <= |s| ==> MatchAt(p, s, i).None?
  {
    forall i | 0 <= i <= |s| ensures MatchAt(p, s, i).None? {
      var q := p[1..];
      assert q[1..] == p[2..];
      if i + 4 <= |s| && Fits(s[i..i + 4], Year20Alts[0]) {
        assert s[i..i + 4][0] == s[i];
        assert i + 4 == |s|;
        assert MatchAt(q[1..], s, i + 4).None?;
      }
      assert TryAlts(q, s, i, 1).None?;
      assert MatchAt(q, s, i).None?;
    }
  }

  /** The day-first pattern at the start of `05/06/2024` captures `05`, `06` and `2024`. */
  lemma DayFirstMatch(s: string)
    requires |s| == 10 && s[0..2] == "05" && s[2] == '/' && s[3..5] == "06" && s[5] == '/' && s[6..10] == "2024"
    ensures MatchAt(DatePatterns[1].pattern, s, 0) == Some(Match(10, ["05", "06", "2024"]))
  {
    var q1 := [DayG, Sep, MonthG, Sep, YearG, Boundary];
    var q0 := [Boundary] + q1;
    assert q0 == DatePatterns[1].pattern && q0[1..] == q1;
    DayFirstDay(s, q1);
    assert IsBoundary(s, 0) by {
      assert s[0] == s[0..2][0];
    }
    BoundaryStep(q0, s, 0);
  }

  lemma DayFirstDay(s: string, q1: Pattern)
    requires |s| == 10 && s[0..2] == "05" && s[2] == '/' && s[3..5] == "06" && s[5] == '/' && s[6..10] == "2024"
    requires q1 == [DayG, Sep, MonthG, Sep, YearG, Boundary]
    ensures MatchAt(q1, s, 0) == Some(Match(10, ["05", "06", "2024"]))
  {
    var q3 := [MonthG, Sep, YearG, Boundary];
    var q2 := [Sep] + q3;
    assert q2[1..] == q3 && q1[1..] == q2;
    DayFirstMonthYear(s, q3);
    CharStep(q2, s, 2);
    assert Fits(s[0..2], DayAlts2[0]) by {
      assert s[0..2][0] == '0' && s[0..2][1] == '5';
    }
    FirstAltStep(q1, s, 0, Match(10, ["06", "2024"]));
    assert [s[0..2]] + ["06", "2024"] == ["05", "06", "2024"];
  }

  lemma DayFirstMonthYear(s: string, q3: Pattern)
    requires |s| == 10 && s[3..5] == "06" && s[5] == '/' && s[6..10] == "2024"
    requires q3 == [MonthG, Sep, YearG, Boundary]
    ensures MatchAt(q3, s, 3) == Some(Match(10, ["06", "2024"]))
  {
    var q5: Pattern := [YearG, Boundary];
    var q4 := [Sep] + q5;
    assert q3[1..] == q4 && q4[1..] == q5;
    DayFirstYear(s, q5);
    CharStep(q4, s, 5);
    assert s[3..5][0] == '0' && s[3..5][1] == '6';
    assert Fits(s[3..5], MonthAlts2[0]);
    FirstAltStep(q3, s, 3, Match(10, ["2024"]));
    assert [s[3..5]] + ["2024"] == ["06", "2024"];
  }

  lemma DayFirstYear(s: string, q5: Pattern)
    requires |s| == 10 && s[6..10] == "2024"
    requires q5 == [YearG, Boundary]
    ensures MatchAt(q5, s, 6) == Some(Match(10, ["2024"]))
  {
    var q6: Pattern := [Boundary];
    assert q5[1..] == q6 && q6[1..] == [];
    assert s[9] == s[6..10][3];
    assert IsBoundary(s, 10);
    BoundaryStep(q6, s, 10);
    assert s[6..10][0] == '2' && s[6..10][1] == '0' && s[6..10][2] == '2' && s[6..10][3] == '4';
    assert Fits(s[6..10], Year20Alts[0]);
    FirstAltStep(q5, s, 6, Match(10, []));
    assert [s[6..10]] + [] == ["2024"];
  }

  /** `_extract_date('2024-02-30')`: the year-first pattern takes the text whole, although
      February has no 30th; `parse_date` then finds no real date in it. */
  lemma ImpossibleDayExtracted()
    ensures ExtractDate("2024-02-30") == Some("2024-02-30")
    ensures ParseDate("2024-02-30") == Unparseable("2024-02-30")
  {
    ImpossibleDayExtraction("2024-02-30");
  }

  lemma ImpossibleDayExtraction(s: string)
    requires |s| == 10 && s[0..4] == "2024" && s[4] == '-' && s[5..7] == "02" && s[7] == '-' && s[8..10] == "30"
    ensures ExtractDate(s) == Some(s)
    ensures ParseDate(s) == Unparseable(s)
  {
    YearFirstMatch(s);
    FirstPatternDecides(s, Match(10, ["2024", "02", "30"]));
    assert Arrange(["2024", "02", "30"], YMD) == ("2024", "02", "30");
    Joined(s, ("2024", "02", "30"));
    ImpossibleDayPieces(s);
    ImpossibleDayParse();
  }

  lemma ImpossibleDayPieces(s: string)
    requires |s| == 10 && s[0..4] == "2024" && s[4] == '-' && s[5..7] == "02" && s[7] == '-' && s[8..10] == "30"
    ensures s == "2024" + "-" + "02" + "-" + "30"
  {
    assert s == s[0..4] + [s[4]] + s[5..7] + [s[7]] + s[8..10];
  }

  lemma ImpossibleDayParse()
    ensures ParseDate("2024" + "-" + "02" + "-" + "30") == Unparseable("2024" + "-" + "02" + "-" + "30")
  {
    assert DigitsValue("2024") == 2024 by {
      FourDigits("2024");
      assert "2024"[..2] == "20" && "2024"[2..] == "24";
    }
    assert DigitsValue("02") == 2 && DigitsValue("30") == 30;
    assert Year20("2024") && MonthDigits("02") && DayDigits("30");
    assert !Calendar.IsValidDate(Calendar.Date(2024, 2, 30));
    ParseDashed("2024", "02", "30");
  }

  /** When the year-first pattern matches at the start, its captures decide. */
  lemma FirstPatternDecides(s: string, m: Match)
    requires MatchAt(DatePatterns[0].pattern, s, 0) == Some(m) && |m.groups| == 3
    ensures ExtractFrom(s, 0) == Some(Arrange(m.groups, YMD))
  {
    PatternFacts(0);
    FindAllHead(DatePatterns[0].pattern, s);
    assert SearchFrom(DatePatterns[0].pattern, s, 0) == Some((0, m));
  }

  /** The year-first pattern at the start of `2024-02-30` captures `2024`, `02` and `30`. */
  lemma YearFirstMatch(s: string)
    requires |s| == 10 && s[0..4] == "2024" && s[4] == '-' && s[5..7] == "02" && s[7] == '-' && s[8..10] == "30"
    ensures MatchAt(DatePatterns[0].pattern, s, 0) == Some(Match(10, ["2024", "02", "30"]))
  {
    var q1 := [YearG, SepYear, MonthG, SepMonth, DayG, Optional('日'), Boundary];
    var q0 := [Boundary] + q1;
    assert q0 == DatePatterns[0].pattern && q0[1..] == q1;
    YearFirstYear(s, q1);
    assert IsBoundary(s, 0) by {
      assert s[0] == s[0..4][0];
    }
    BoundaryStep(q0, s, 0);
  }

  lemma YearFirstYear(s: string, q1: Pattern)
    requires |s| == 10 && s[0..4] == "2024" && s[4] == '-' && s[5..7] == "02" && s[7] == '-' && s[8..10] == "30"
    requires q1 == [YearG, SepYear, MonthG, SepMonth, DayG, Optional('日'), Boundary]
    ensures MatchAt(q1, s, 0) == Some(Match(10, ["2024", "02", "30"]))
  {
    var q3 := [MonthG, SepMonth, DayG, Optional('日'), Boundary];
    var q2 := [SepYear] + q3;
    assert q2[1..] == q3 && q1[1..] == q2;
    YearFirstMonth(s, q3);
    CharStep(q2, s, 4);
    assert Fits(s[0..4], Year20Alts[0]) by {
      assert s[0..4][0] == '2' && s[0..4][1] == '0' && s[0..4][2] == '2' && s[0..4][3] == '4';
    }
    FirstAltStep(q1, s, 0, Match(10, ["02", "30"]));
    assert [s[0..4]] + ["02", "30"] == ["2024", "02", "30"];
  }

  lemma YearFirstMonth(s: string, q3: Pattern)
    requires |s| == 10 && s[5..7] == "02" && s[7] == '-' && s[8..10] == "30"
    requires q3 == [MonthG, SepMonth, DayG, Optional('日'), Boundary]
    ensures MatchAt(q3, s, 5) == Some(Match(10, ["02", "30"]))
  {
    var q5 := [DayG, Optional('日'), Boundary];
    var q4 := [SepMonth] + q5;
    assert q4[1..] == q5 && q3[1..] == q4;
    YearFirstDay(s, q5);
    CharStep(q4, s, 7);
    assert Fits(s[5..7], MonthAlts2[0]) by {
      assert s[5..7][0] == '0' && s[5..7][1] == '2';
    }
    FirstAltStep(q3, s, 5, Match(10, ["30"]));
    assert [s[5..7]] + ["30"] == ["02", "30"];
  }

  /** `(0?[1-9]|[12]\d|3[01])` before `日?\b` on `30` at the end: `3` alone is followed by a
      digit, so no boundary, and the alternative `3[01]` takes both digits. */
  lemma YearFirstDay(s: string, q5: Pattern)
    requires |s| == 10 && s[8..10] == "30"
    requires q5 == [DayG, Optional('日'), Boundary]
    ensures MatchAt(q5, s, 8) == Some(Match(10, ["30"]))
  {
    var q6 := q5[1..];
    DayMarkTail(s, q6);
    assert !Fits(s[8..9], DayAlts2[0]) && !Fits(s[8..10], DayAlts2[0]) by {
      assert s[8..10][0] == '3' && s[8..9][0] == '3';
    }
    AltPassed(q5, s, 8, 0);
    AltPassed(q5, s, 8, 1);
    assert !Fits(s[8..10], DayAlts2[2]) by {
      assert s[8..10][0] == '3';
    }
    AltPassed(q5, s, 8, 2);
    assert Fits(s[8..10], DayAlts2[3]) by {
      assert s[8..10][0] == '3' && s[8..10][1] == '0';
    }
    AltTaken(q5, s, 8, 3, Match(10, []));
    assert [s[8..10]] + [] == ["30"];
  }

  /** `日?\b` after `3` of `30` fails, and at the end of the text matches empty. */
  lemma DayMarkTail(s: string, q6: Pattern)
    requires |s| == 10 && s[8..10] == "30"
    requires q6 == [Optional('日'), Boundary]
    ensures MatchAt(q6, s, 9).None? && MatchAt(q6, s, 10) == Some(Match(10, []))
  {
    var q7: Pattern := [Boundary];
    assert q6[1..] == q7 && q7[1..] == [];
    assert s[8] == s[8..10][0] && s[9] == s[8..10][1];
    assert !IsBoundary(s, 9) && IsBoundary(s, 10);
    BoundaryStep(q7, s, 10);
  }

  // ---------------------------------------------------------------------------------------
  // parse_date

  /** What `parse_date` does with a text: a date, the ValueError naming the text, or the
      OverflowError `datetime.date` raises for a number beyond a C int. */
  datatype ParseOutcome = Parsed(date: Calendar.Date) | Unparseable(text: string) | Overflow

  /** The formats tried in order. */
  const Formats: seq<DateFormat> := [
    YmdFormat('-'), YmdFormat('/'), YmdFormat('.'), ChineseFormat,
    DmyFormat('-'), DmyFormat('/'), DmyFormat('.'),
    MdyFormat('-'), MdyFormat('/'), MdyFormat('.')
  ]

  /** The first format, from k on, that parses the text. */
  function TryFormats(text: string, k: nat): (r: Option<Calendar.Date>)
    requires k <= |Formats|
    ensures r.Some? ==> Calendar.IsValidDate(r.value)
    ensures r.Some? ==> exists j :: k <= j < |Formats| && FirstParsing(text, k, j, r)
    ensures r.None? <==> forall j :: k <= j < |Formats| ==> Parse(text, Formats[j]).None?
    decreases |Formats| - k
  {
    if k == |Formats| then None
    else
      var r := Parse(text, Formats[k]);
      if r.Some? then
        assert FirstParsing(text, k, k, r);
        r
      else
        var q := TryFormats(text, k + 1);
        LaterFormat(text, k, k + 1, q);
        q
  }

  /** Format j parses the text into r, and every format from k before it fails. */
  predicate FirstParsing(text: string, k: nat, j: nat, r: Option<Calendar.Date>)
    requires k <= j < |Formats|
  {
    Parse(text, Formats[j]) == r && forall i :: k <= i < j ==> Parse(text, Formats[i]).None?
  }

  /** When format k fails, the first format from k + 1 that parses is the first from k. */
  lemma LaterFormat(text: string, k: nat, next: nat, q: Option<Calendar.Date>)
    requires next == k + 1 <= |Formats| && Parse(text, Formats[k]).None?
    requires q.Some? ==> exists j :: next <= j < |Formats| && FirstParsing(text, next, j, q)
    ensures q.Some? ==> exists j :: k <= j < |Formats| && FirstParsing(text, k, j, q)
  {
    if q.Some? {
      var j :| next <= j < |Formats| && FirstParsing(text, next, j, q);
      forall i | k <= i < j ensures Parse(text, Formats[i]).None? {
        if i != k {
          assert next <= i < j;
        }
      }
      assert FirstParsing(text, k, j, q);
    }
  }

  /** `re.findall(r'\d+', text)` from position i. */
  function DigitRunsFrom(s: string, i: nat): (r: seq<string>)
    requires i <= |s|
    ensures forall k :: 0 <= k < |r| ==> |r[k]| >= 1 && AllDigits(r[k])
    decreases |s| - i
  {
    if i == |s| then []
    else if !IsDigit(s[i]) then DigitRunsFrom(s, i + 1)
    else
      var n := RunLength(s, i, Digit);
      var run := s[i..i + n];
      assert forall j :: 0 <= j < n ==> run[j] == s[i + j];
      [run] + DigitRunsFrom(s, i + n)
  }

  /** The largest value `datetime.date` accepts before raising OverflowError. */
  const IntMax: nat := 0x7FFF_FFFF

  /** The fallback: the first three digit runs, read as year-month-day when the first run has
      four digits and as day-month-year otherwise. */
  function FromDigitRuns(text: string): (r: ParseOutcome)
    ensures r.Parsed? ==> Calendar.IsValidDate(r.date)
    ensures r.Unparseable? ==> r.text == text
    ensures |DigitRunsFrom(text, 0)| < 3 ==> r == Unparseable(text)
    ensures var ns := DigitRunsFrom(text, 0);
            |ns| >= 3 ==>
              var (y, m, d) := if |ns[0]| == 4 then (ns[0], ns[1], ns[2]) else (ns[2], ns[1], ns[0]);
              var date := Calendar.Date(DigitsValue(y), DigitsValue(m), DigitsValue(d));
              if DigitsValue(y) > IntMax || DigitsValue(m) > IntMax || DigitsValue(d) > IntMax then r == Overflow
              else r == if Calendar.IsValidDate(date) then Parsed(date) else Unparseable(text)
  {
    var ns := DigitRunsFrom(text, 0);
    if |ns| < 3 then Unparseable(text)
    else
      var year := if |ns[0]| == 4 then DigitsValue(ns[0]) else DigitsValue(ns[2]);
      var month := DigitsValue(ns[1]);
      var day := if |ns[0]| == 4 then DigitsValue(ns[2]) else DigitsValue(ns[0]);
      if year > IntMax || month > IntMax || day > IntMax then Overflow
      else if Calendar.IsValidDate(Calendar.Date(year, month, day)) then Parsed(Calendar.Date(year, month, day))
      else Unparseable(text)
  }

  /** `parse_date(text)`. */
  function ParseDate(text: string): (r: ParseOutcome)
    ensures r.Parsed? ==> Calendar.IsValidDate(r.date)
    ensures r.Unparseable? ==> r.text == text
    ensures TryFormats(text, 0).Some? ==> r == Parsed(TryFormats(text, 0).value)
    ensures TryFormats(text, 0).None? ==> r == FromDigitRuns(text)
  {
    var r := TryFormats(text, 0);
    if r.Some? then Parsed(r.value) else FromDigitRuns(text)
  }

  // ---------------------------------------------------------------------------------------
  // Properties

  /** Every real date in the stored `YYYY-MM-DD` form parses back to itself. */
  lemma ParseIsoRoundTrip(d: Calendar.Date)
    requires Calendar.IsValidDate(d)
    ensures ParseDate(Calendar.FormatIso(d)) == Parsed(d)
  {
    IsoRoundTrip(d);
    assert Formats[0] == IsoFormat;
  }

  /** The runs of `\d+` in `Y-M-D` are the three fields. */
  lemma DigitRunsOfDashed(y: string, m: string, d: string)
    requires |y| >= 1 && |m| >= 1 && |d| >= 1 && AllDigits(y) && AllDigits(m) && AllDigits(d)
    ensures DigitRunsFrom(y + "-" + m + "-" + d, 0) == [y, m, d]
  {
    var s := y + ['-'] + m + ['-'] + d;
    FieldSlices(y, '-', m, d);
    assert s[0..|y|] == s[..|y|];
    ThreeRuns(s, |y|, |y| + 1 + |m|, y, m, d);
    assert y + "-" + m + "-" + d == s;
  }

  /** Three digit fields separated by dashes are the three digit runs. */
  lemma ThreeRuns(s: string, a: nat, b: nat, x: string, y: string, z: string)
    requires 1 <= a && a + 1 < b && b + 1 < |s| && s[a] == '-' && s[b] == '-'
    requires s[0..a] == x && s[a + 1..b] == y && s[b + 1..] == z
    requires AllDigits(x) && AllDigits(y) && AllDigits(z)
    ensures DigitRunsFrom(s, 0) == [x, y, z]
  {
    RunBetween(s, 0, a, x);
    TwoRuns(s, a + 1, b, y, z);
    assert [x] + [y, z] == [x, y, z];
  }

  lemma TwoRuns(s: string, i: nat, b: nat, y: string, z: string)
    requires i < b && b + 1 < |s| && s[b] == '-' && s[i..b] == y && s[b + 1..] == z
    requires AllDigits(y) && AllDigits(z)
    ensures DigitRunsFrom(s, i) == [y, z]
  {
    RunBetween(s, i, b, y);
    RunToEnd(s, b + 1, z);
    assert [y] + [z] == [y, z];
  }

  lemma RunBetween(s: string, i: nat, j: nat, w: string)
    requires i < j < |s| && s[i..j] == w && AllDigits(w) && !IsDigit(s[j])
    ensures DigitRunsFrom(s, i) == [w] + DigitRunsFrom(s, j + 1)
  {
    RunThenRest(s, i, j - i);
  }

  lemma RunToEnd(s: string, i: nat, w: string)
    requires i < |s| && s[i..] == w && AllDigits(w)
    ensures DigitRunsFrom(s, i) == [w]
  {
    assert s[i..i + (|s| - i)] == s[i..];
    RunThenRest(s, i, |s| - i);
  }

  /** A maximal run of n digits at i is the next element of the runs. */
  lemma RunThenRest(s: string, i: nat, n: nat)
    requires n >= 1 && i + n <= |s| && AllDigits(s[i..i + n])
    requires i + n == |s| || !IsDigit(s[i + n])
    ensures i + n == |s| ==> DigitRunsFrom(s, i) == [s[i..]]
    ensures i + n < |s| ==> DigitRunsFrom(s, i) == [s[i..i + n]] + DigitRunsFrom(s, i + n + 1)
  {
    assert forall j :: i <= j < i + n ==> IsDigit(s[j]) by {
      forall j | i <= j < i + n ensures IsDigit(s[j]) { assert s[j] == s[i..i + n][j - i]; }
    }
    RunLengthExact(s, i, n);
    assert DigitRunsFrom(s, i) == [s[i..i + n]] + DigitRunsFrom(s, i + n);
    if i + n == |s| {
      assert DigitRunsFrom(s, i + n) == [];
      assert s[i..i + n] == s[i..];
      assert [s[i..]] + [] == [s[i..]];
    }
  }

  /** A run of n digits followed by the end or a non-digit has run length n. */
  lemma {:induction false} RunLengthExact(s: string, i: nat, n: nat)
    requires i + n <= |s| && (forall j :: i <= j < i + n ==> IsDigit(s[j]))
    requires i + n == |s| || !IsDigit(s[i + n])
    ensures RunLength(s, i, Digit) == n
    decreases n
  {
    if n > 0 {
      RunLengthExact(s, i + 1, n - 1);
    }
  }

  /** Every format but the first fails on a text that starts like `20dd-`. */
  lemma OtherFormatsFail(s: string)
    requires |s| >= 5 && Year20(s[..4]) && s[4] == '-'
    ensures forall k :: 1 <= k < |Formats| ==> Parse(s, Formats[k]).None?
  {
    assert IsDigit(s[1]) && IsDigit(s[2]) && AllDigits(s[..4]) by {
      assert s[1] == s[..4][1] && s[2] == s[..4][2];
    }
    YmdFails(s, '/');
    YmdFails(s, '.');
    YmdFails(s, '年');
    DmyMdyFail(s);
  }

  lemma DmyMdyFail(s: string)
    requires |s| >= 3 && IsDigit(s[1]) && IsDigit(s[2])
    ensures forall k :: 4 <= k < |Formats| ==> Parse(s, Formats[k]).None?
  {
    LeadingGroupFails(s, DmyFormat('-'));
    LeadingGroupFails(s, DmyFormat('/'));
    LeadingGroupFails(s, DmyFormat('.'));
    LeadingGroupFails(s, MdyFormat('-'));
    LeadingGroupFails(s, MdyFormat('/'));
    LeadingGroupFails(s, MdyFormat('.'));
  }

  /** A format starting `%Y` then a separator other than '-' fails on `YYYY-`. */
  lemma YmdFails(s: string, sep: char)
    requires |s| >= 5 && AllDigits(s[..4]) && s[4] == '-' && sep != '-'
    ensures Parse(s, YmdFormat(sep)).None? && Parse(s, ChineseFormat).None?
  {
    var p := YmdFormat(sep).pattern;
    GroupBeforeChar(p, s, 0, 0, 4);
    assert MatchAt(p[1..], s, 4).None?;
    var q := ChineseFormat.pattern;
    GroupBeforeChar(q, s, 0, 0, 4);
    assert MatchAt(q[1..], s, 4).None?;
  }

  /** A format starting `%d` or `%m` then a non-digit separator fails on text whose second
      and third characters are digits. */
  lemma LeadingGroupFails(s: string, f: DateFormat)
    requires |s| >= 3 && IsDigit(s[1]) && IsDigit(s[2])
    requires |f.pattern| >= 2 && (f.pattern[0] == Group(DayAlts) || f.pattern[0] == Group(MonthAlts))
    requires f.pattern[1].Char? && f.pattern[1].cc.OneOf? && |f.pattern[1].cc.chars| == 1
             && !IsDigit(f.pattern[1].cc.chars[0])
    ensures Parse(s, f).None?
  {
    var p := f.pattern;
    GroupBeforeChar(p, s, 0, 0, 0);
  }

  /** What `parse_date` makes of whatever `_extract_date` returns: the date when the captured
      numbers form a real one, otherwise the ValueError naming the text (February 30 is
      extracted but not parsed). */
  lemma ExtractThenParse(text: string)
    requires ExtractDate(text).Some?
    ensures var f := ExtractFrom(text, 0).value;
            var date := Calendar.Date(DigitsValue(f.0), DigitsValue(f.1), DigitsValue(f.2));
            ParseDate(ExtractDate(text).value)
              == if Calendar.IsValidDate(date) then Parsed(date) else Unparseable(ExtractDate(text).value)
  {
    var f := ExtractFrom(text, 0).value;
    ParseDashed(f.0, f.1, f.2);
  }

  /** `parse_date` of `YYYY-M-D` text with a 20xx year. */
  lemma ParseDashed(y: string, m: string, d: string)
    requires Year20(y) && MonthDigits(m) && DayDigits(d)
    ensures var date := Calendar.Date(DigitsValue(y), DigitsValue(m), DigitsValue(d));
            ParseDate(y + "-" + m + "-" + d)
              == if Calendar.IsValidDate(date) then Parsed(date) else Unparseable(y + "-" + m + "-" + d)
  {
    var s := y + "-" + m + "-" + d;
    var date := Calendar.Date(DigitsValue(y), DigitsValue(m), DigitsValue(d));
    assert AllDigits(y);
    IsoDashParse(y, m, d);
    assert Parse(s, Formats[0]) == Parse(s, IsoFormat);
    if !Calendar.IsValidDate(date) {
      assert TryFormats(s, 0).None? by {
        assert s[..4] == y && s[4] == '-';
        OtherFormatsFail(s);
      }
      assert FromDigitRuns(s) == Unparseable(s) by {
        DigitRunsOfDashed(y, m, d);
        DigitsValueBound(y);
        assert Pow10(4) == 10000;
      }
    }
  }

  // ---------------------------------------------------------------------------------------
  // The fallback on digit runs

  /** A format that opens with a `%Y`, `%m` or `%d` group and then one separator character. */
  predicate OpensWithGroup(f: DateFormat)
  {
    |f.pattern| >= 2
    && (f.pattern[0] == Group(YearAlts) || f.pattern[0] == Group(MonthAlts) || f.pattern[0] == Group(DayAlts))
    && f.pattern[1].Char? && f.pattern[1].cc.OneOf? && |f.pattern[1].cc.chars| == 1
  }

  lemma FormatsOpenWithGroup(k: nat)
    requires k < |Formats|
    ensures OpensWithGroup(Formats[k]) && Formats[k].pattern[1].cc.chars[0] in "-/.年"
  {
  }

  /** A format that opens with a group and a separator fails on text whose second to fifth
      characters are all other than that separator. */
  lemma LeadingGroupBlocked(s: string, f: DateFormat)
    requires |s| >= 5 && OpensWithGroup(f)
    requires forall k :: 1 <= k <= 4 ==> s[k] != f.pattern[1].cc.chars[0]
    ensures Parse(s, f).None?
  {
    var p := f.pattern;
    assert forall k :: 0 <= k < |p[0].alts| ==> 1 <= |p[0].alts[k]| <= 4;
    GroupBeforeChar(p, s, 0, 0, 3);
  }

  /** No format parses a text that has none of the separators `-`, `/`, `.`, `年` among its
      second to fifth characters. */
  lemma NoSeparatorNoFormat(s: string)
    requires |s| >= 5 && forall k :: 1 <= k <= 4 ==> s[k] !in "-/.年"
    ensures TryFormats(s, 0).None?
  {
    forall k | 0 <= k < |Formats| ensures Parse(s, Formats[k]).None? {
      FormatsOpenWithGroup(k);
      LeadingGroupBlocked(s, Formats[k]);
    }
  }

  /** `parse_date('05/06/2024')`: `%d/%m/%Y` comes before `%m/%d/%Y`, so the text is read as
      5 June 2024, although `%m/%d/%Y` alone would read it as 6 May 2024. */
  lemma SlashedDayFirst()
    ensures ParseDate("05/06/2024") == Parsed(Calendar.Date(2024, 6, 5))
    ensures Parse("05/06/2024", MdyFormat('/')) == Some(Calendar.Date(2024, 5, 6))
  {
    SlashedParse("05/06/2024");
  }

  lemma SlashedParse(s: string)
    requires |s| == 10 && s[0..2] == "05" && s[2] == '/' && s[3..5] == "06" && s[5] == '/' && s[6..10] == "2024"
    ensures ParseDate(s) == Parsed(Calendar.Date(2024, 6, 5))
    ensures Parse(s, MdyFormat('/')) == Some(Calendar.Date(2024, 5, 6))
  {
    SlashedYearFirstFails(s);
    SlashedDashFails(s);
    SlashedDmy(s);
    SlashedMdy(s);
    assert Formats[5] == DmyFormat('/');
  }

  lemma SlashedDashFails(s: string)
    requires |s| == 10 && s[0..2] == "05" && s[2] == '/' && s[3..5] == "06"
    ensures Parse(s, Formats[4]).None?
  {
    assert s[1] == s[0..2][1] && s[3] == s[3..5][0] && s[4] == s[3..5][1];
    FormatsOpenWithGroup(4);
    LeadingGroupBlocked(s, Formats[4]);
  }

  /** The `%Y`-first formats fail on a text whose third character is not a digit. */
  lemma SlashedYearFirstFails(s: string)
    requires |s| >= 5 && !IsDigit(s[2])
    ensures forall k :: 0 <= k < 4 ==> Parse(s, Formats[k]).None?
  {
    forall k | 0 <= k < 4 ensures Parse(s, Formats[k]).None? {
      var p := Formats[k].pattern;
      assert p[0] == Group(YearAlts) && p[1].Char?;
      assert !Fits(s[0..4], YearAlts[0]) by {
        assert s[0..4][2] == s[2];
      }
      GroupBeforeChar(p, s, 0, 0, 4);
    }
  }

  lemma SlashedDates()
    ensures FieldsDate(["05", "06", "2024"], DMY) == Calendar.Date(2024, 6, 5)
    ensures FieldsDate(["05", "06", "2024"], MDY) == Calendar.Date(2024, 5, 6)
    ensures Calendar.IsValidDate(Calendar.Date(2024, 6, 5)) && Calendar.IsValidDate(Calendar.Date(2024, 5, 6))
  {
    SlashedFields();
  }

  lemma SlashedFields()
    ensures FieldValue("2024") == 2024 && FieldValue("06") == 6 && FieldValue("05") == 5
  {
    FourDigits("2024");
    assert "2024"[..2] == "20" && "2024"[2..] == "24";
    TwoDigitsValue("20");
    TwoDigitsValue("24");
    TwoDigitsValue("06");
    TwoDigitsValue("05");
  }

  lemma SlashedDmy(s: string)
    requires |s| == 10 && s[0..2] == "05" && s[2] == '/' && s[3..5] == "06" && s[5] == '/' && s[6..10] == "2024"
    ensures Parse(s, DmyFormat('/')) == Some(Calendar.Date(2024, 6, 5))
  {
    SlashedDmyMatch(s);
    SlashedDates();
  }

  lemma SlashedDmyMatch(s: string)
    requires |s| == 10 && s[0..2] == "05" && s[2] == '/' && s[3..5] == "06" && s[5] == '/' && s[6..10] == "2024"
    ensures MatchAt(DmyFormat('/').pattern, s, 0) == Some(Match(10, ["05", "06", "2024"]))
  {
    var q1 := [Lit('/'), Group(MonthAlts), Lit('/'), Group(YearAlts)];
    var q0 := [Group(DayAlts)] + q1;
    assert q0 == DmyFormat('/').pattern && q0[1..] == q1;
    SlashedMonthYear(s, q1);
    assert q0[0] == Group(DayAlts);
    ZeroLedDayGroup(q0, s, "05", Match(10, ["06", "2024"]));
    GroupStep(q0, s, 0);
    assert [s[0..2]] + ["06", "2024"] == ["05", "06", "2024"];
  }

  /** A group of `%d` alternatives at the start of a text opening with `0d` takes those two
      characters when the rest of the pattern matches after them. */
  lemma ZeroLedDayGroup(p: Pattern, s: string, t: string, m: Match)
    requires |s| >= 2 && s[0..2] == t && |t| == 2 && t[0] == '0' && '1' <= t[1] <= '9'
    requires p != [] && p[0] == Group(DayAlts) && MatchAt(p[1..], s, 2) == Some(m)
    ensures TryAlts(p, s, 0, 0) == Some(Match(m.end, [s[0..2]] + m.groups))
  {
    ZeroLedDay(t);
    AltPassed(p, s, 0, 0);
    AltPassed(p, s, 0, 1);
    AltTaken(p, s, 0, 2, m);
  }

  /** A group of `%m` alternatives at the start of a text opening with `0m` takes those two
      characters when the rest of the pattern matches after them. */
  lemma ZeroLedMonthGroup(p: Pattern, s: string, t: string, m: Match)
    requires |s| >= 2 && s[0..2] == t && |t| == 2 && t[0] == '0' && '1' <= t[1] <= '9'
    requires p != [] && p[0] == Group(MonthAlts) && MatchAt(p[1..], s, 2) == Some(m)
    ensures TryAlts(p, s, 0, 0) == Some(Match(m.end, [s[0..2]] + m.groups))
  {
    ZeroLedMonth(t);
    AltPassed(p, s, 0, 0);
    AltTaken(p, s, 0, 1, m);
  }

  /** A two-character day `0d` fits the third alternative of `%d` and not the first two. */
  lemma ZeroLedDay(t: string)
    requires |t| == 2 && t[0] == '0' && '1' <= t[1] <= '9'
    ensures !Fits(t, DayAlts[0]) && !Fits(t, DayAlts[1]) && Fits(t, DayAlts[2])
  {
  }

  /** A two-character month `0m` fits the second alternative of `%m` and not the first. */
  lemma ZeroLedMonth(t: string)
    requires |t| == 2 && t[0] == '0' && '1' <= t[1] <= '9'
    ensures !Fits(t, MonthAlts[0]) && Fits(t, MonthAlts[1])
  {
  }

  lemma SlashedMonthYear(s: string, q1: Pattern)
    requires |s| == 10 && s[2] == '/' && s[3..5] == "06" && s[5] == '/' && s[6..10] == "2024"
    requires q1 == [Lit('/'), Group(MonthAlts), Lit('/'), Group(YearAlts)]
    ensures MatchAt(q1, s, 2) == Some(Match(10, ["06", "2024"]))
  {
    var q2 := q1[1..];
    SlashedYear(s, q2[1..]);
    assert MonthDigits("06") by {
      TwoDigitsValue("06");
    }
    MonthGroup(q2, s, 3, "06");
    assert [s[3..5]] + ["2024"] == ["06", "2024"];
    LitStep(q1, s, 2, '/');
  }

  lemma SlashedYear(s: string, q3: Pattern)
    requires |s| == 10 && s[5] == '/' && s[6..10] == "2024"
    requires q3 == [Lit('/'), Group(YearAlts)]
    ensures MatchAt(q3, s, 5) == Some(Match(10, ["2024"]))
  {
    assert Fits(s[6..10], YearAlts[0]) by {
      assert s[6..10][0] == '2' && s[6..10][1] == '0' && s[6..10][2] == '2' && s[6..10][3] == '4';
    }
    GroupAtEnd(q3[1..], s, 6, 0, 0);
    LitStep(q3, s, 5, '/');
  }

  lemma SlashedMdy(s: string)
    requires |s| == 10 && s[0..2] == "05" && s[2] == '/' && s[3..5] == "06" && s[5] == '/' && s[6..10] == "2024"
    ensures Parse(s, MdyFormat('/')) == Some(Calendar.Date(2024, 5, 6))
  {
    SlashedMdyMatch(s);
    SlashedDates();
  }

  lemma SlashedMdyMatch(s: string)
    requires |s| == 10 && s[0..2] == "05" && s[2] == '/' && s[3..5] == "06" && s[5] == '/' && s[6..10] == "2024"
    ensures MatchAt(MdyFormat('/').pattern, s, 0) == Some(Match(10, ["05", "06", "2024"]))
  {
    var q1 := [Lit('/'), Group(DayAlts), Lit('/'), Group(YearAlts)];
    var q0 := [Group(MonthAlts)] + q1;
    assert q0 == MdyFormat('/').pattern && q0[1..] == q1;
    SlashedDayYear(s, q1);
    assert q0[0] == Group(MonthAlts);
    ZeroLedMonthGroup(q0, s, "05", Match(10, ["06", "2024"]));
    GroupStep(q0, s, 0);
    assert [s[0..2]] + ["06", "2024"] == ["05", "06", "2024"];
  }

  lemma SlashedDayYear(s: string, q1: Pattern)
    requires |s| == 10 && s[2] == '/' && s[3..5] == "06" && s[5] == '/' && s[6..10] == "2024"
    requires q1 == [Lit('/'), Group(DayAlts), Lit('/'), Group(YearAlts)]
    ensures MatchAt(q1, s, 2) == Some(Match(10, ["06", "2024"]))
  {
    var q2 := q1[1..];
    SlashedYear(s, q2[1..]);
    assert WidthFits(DayAlts, 0, s, 3, 2) by {
      assert s[3..5][0] == '0' && s[3..5][1] == '6';
      assert Fits(s[3..5], DayAlts[2]);
    }
    assert !Fits(s[3..4], DayAlts[3]) by {
      assert s[3..4][0] == '0';
    }
    GroupBeforeChar(q2, s, 3, 0, 2);
    assert [s[3..5]] + ["2024"] == ["06", "2024"];
    LitStep(q1, s, 2, '/');
  }

  /** `parse_date('15 1 2024')`: no format fits, and the digit runs 15, 1 and 2024 are read
      day first, giving 15 January 2024. */
  lemma SpacedDayFirst()
    ensures ParseDate("15 1 2024") == Parsed(Calendar.Date(2024, 1, 15))
  {
    SpacedFallback("15 1 2024");
  }

  lemma SpacedFallback(s: string)
    requires s == "15 1 2024"
    ensures ParseDate(s) == Parsed(Calendar.Date(2024, 1, 15))
  {
    NoSeparatorNoFormat(s);
    SpacedRuns(s);
    SpacedValues();
  }

  lemma SpacedValues()
    ensures DigitsValue("15") == 15 && DigitsValue("1") == 1 && DigitsValue("2024") == 2024
    ensures Calendar.IsValidDate(Calendar.Date(2024, 1, 15))
  {
    TwoDigitsValue("15");
    OneDigitValue("1");
    FourDigits("2024");
  }

  lemma SpacedRuns(s: string)
    requires s == "15 1 2024"
    ensures DigitRunsFrom(s, 0) == ["15", "1", "2024"]
  {
    assert s[0..2] == "15" && s[3..4] == "1" && s[5..] == "2024";
    RunBetween(s, 0, 2, "15");
    RunBetween(s, 3, 4, "1");
    RunToEnd(s, 5, "2024");
  }

  /** The value of four digits. */
  lemma FourDigits(t: string)
    requires |t| == 4 && AllDigits(t)
    ensures DigitsValue(t) == 100 * DigitsValue(t[..2]) + DigitsValue(t[2..])
  {
    TwoDigitsValue(t[..2]);
    TwoDigitsValue(t[2..]);
    assert t[..3][..2] == t[..2] && t[..3][2] == t[2] && t[..4] == t;
    assert DigitsValue(t[..3]) == DigitsValue(t[..2]) * 10 + DigitValue(t[2]);
  }
}
