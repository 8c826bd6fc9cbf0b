/** The text side of `DateRecognizer`: reading dates and shelf lives out of recognised text
    fragments (`parse_date_patterns`), choosing the most confident one (`recognize_date`),
    and the expiry arithmetic (`calculate_expiry_date`, `get_days_remaining`). Image loading,
    preprocessing and the OCR engines are not modelled: the recogniser starts from the text
    fragments they return. Confidences are kept in tenths (0.8 is 8). */
module DateRecognizer {
  import opened Text
  import opened Regex
  import opened Strptime
  import opened Calendar

  // ---------------------------------------------------------------------------------------
  // The nine patterns.

  /** `(\d{4})` */
  const D4: seq<Alt> := [[Digit, Digit, Digit, Digit]]

  /** `(\d{1,2})`: two digits are tried before one. */
  const D12: seq<Alt> := [[Digit, Digit], [Digit]]

  const DateSep: Elem := Char(OneOf("-./"))
  const YearSep: Elem := Char(OneOf("-./年"))
  const MonthSep: Elem := Char(OneOf("-./月"))
  const Colon: Elem := Char(OneOf("：:"))

  /** The patterns in the order they are tried. */
  const Patterns: seq<Pattern> := [
    [Group(D4), Lit('年'), Group(D12), Lit('月'), Group(D12), Lit('日')],
    [Group(D4), Lit('年'), Group(D12), Lit('月')],
    [Group(D4), DateSep, Group(D12), DateSep, Group(D12)],
    [Group(D4), DateSep, Group(D12)],
    [Lit('生'), Lit('产'), Lit('日'), Lit('期'), Colon, Group(D4), YearSep, Group(D12), MonthSep, Group(D12)],
    [Lit('生'), Lit('产'), Many(OneOf("：:")), Group(D4), YearSep, Group(D12), MonthSep, Group(D12)],
    [Lit('制'), Lit('造'), Lit('日'), Lit('期'), Colon, Group(D4), YearSep, Group(D12), MonthSep, Group(D12)],
    [Lit('保'), Lit('质'), Lit('期'), Colon, Group(D12), Many(OneOf("个")), Lit('月')],
    [Lit('保'), Lit('质'), Lit('期'), Lit('至'), Many(OneOf("：:")), Group(D4), YearSep, Group(D12), MonthSep, Group(D12)]
  ]

  /** The index of the shelf-life pattern `保质期[：:](\d{1,2})[个]*月`. */
  const ShelfLifePattern: nat := 7

  /** The groups of pattern k. */
  function GroupsOf(k: nat): seq<seq<Alt>>
  {
    if k == 1 || k == 3 then [D4, D12]
    else if k == ShelfLifePattern then [D12]
    else [D4, D12, D12]
  }

  /** Each pattern consumes at least one character, and its groups are digits. */
  lemma PatternShape(k: nat)
    requires k < |Patterns|
    ensures MinWidth(Patterns[k]) >= 1
    ensures GroupAlts(Patterns[k]) == GroupsOf(k)
  {
    if k == 0 { Shape0(); } else if k == 1 { Shape1(); } else if k == 2 { Shape2(); }
    else if k == 3 { Shape3(); } else if k == 4 { Shape4(); } else if k == 5 { Shape5(); }
    else if k == 6 { Shape6(); } else if k == 7 { Shape7(); } else { Shape8(); }
  }

  lemma Shape0() ensures MinWidth(Patterns[0]) >= 1 && GroupAlts(Patterns[0]) == GroupsOf(0)
  { var p := Patterns[0]; Step(p); Step(p[1..]); Step(p[2..]); Step(p[3..]); Step(p[4..]); Step(p[5..]); Step(p[6..]); }
  lemma Shape1() ensures MinWidth(Patterns[1]) >= 1 && GroupAlts(Patterns[1]) == GroupsOf(1)
  { var p := Patterns[1]; Step(p); Step(p[1..]); Step(p[2..]); Step(p[3..]); Step(p[4..]); }
  lemma Shape2() ensures MinWidth(Patterns[2]) >= 1 && GroupAlts(Patterns[2]) == GroupsOf(2)
  { var p := Patterns[2]; Step(p); Step(p[1..]); Step(p[2..]); Step(p[3..]); Step(p[4..]); Step(p[5..]); }
  lemma Shape3() ensures MinWidth(Patterns[3]) >= 1 && GroupAlts(Patterns[3]) == GroupsOf(3)
  { var p := Patterns[3]; Step(p); Step(p[1..]); Step(p[2..]); Step(p[3..]); }
  lemma Shape4() ensures MinWidth(Patterns[4]) >= 1 && GroupAlts(Patterns[4]) == GroupsOf(4)
  {
    var p := Patterns[4];
    Step(p); Step(p[1..]); Step(p[2..]); Step(p[3..]); Step(p[4..]); Step(p[5..]);
    Step(p[6..]); Step(p[7..]); Step(p[8..]); Step(p[9..]); Step(p[10..]);
  }
  lemma Shape5() ensures MinWidth(Patterns[5]) >= 1 && GroupAlts(Patterns[5]) == GroupsOf(5)
  {
    var p := Patterns[5];
    Step(p); Step(p[1..]); Step(p[2..]); Step(p[3..]); Step(p[4..]); Step(p[5..]);
    Step(p[6..]); Step(p[7..]); Step(p[8..]);
  }
  lemma Shape6() ensures MinWidth(Patterns[6]) >= 1 && GroupAlts(Patterns[6]) == GroupsOf(6)
  {
    var p := Patterns[6];
    Step(p); Step(p[1..]); Step(p[2..]); Step(p[3..]); Step(p[4..]); Step(p[5..]);
    Step(p[6..]); Step(p[7..]); Step(p[8..]); Step(p[9..]); Step(p[10..]);
  }
  lemma Shape7() ensures MinWidth(Patterns[7]) >= 1 && GroupAlts(Patterns[7]) == GroupsOf(7)
  { var p := Patterns[7]; Step(p); Step(p[1..]); Step(p[2..]); Step(p[3..]); Step(p[4..]); Step(p[5..]); Step(p[6..]); Step(p[7..]); }
  lemma Shape8() ensures MinWidth(Patterns[8]) >= 1 && GroupAlts(Patterns[8]) == GroupsOf(8)
  {
    var p := Patterns[8];
    Step(p); Step(p[1..]); Step(p[2..]); Step(p[3..]); Step(p[4..]); Step(p[5..]);
    Step(p[6..]); Step(p[7..]); Step(p[8..]); Step(p[9..]); Step(p[10..]);
  }

  /** Every group of every match fits its pattern's group: with the digit patterns, a run of
      ASCII digits. */
  predicate MatchesFit(k: nat, ms: seq<seq<string>>)
    requires k < |Patterns|
  {
    forall m :: m in ms ==> |m| == |GroupsOf(k)| && forall x :: 0 <= x < |m| ==> FitsSome(m[x], GroupsOf(k)[x])
  }

  lemma MatchGroupsFit(k: nat, text: string)
    requires k < |Patterns|
    ensures MinWidth(Patterns[k]) >= 1
    ensures MatchesFit(k, FindAll(Patterns[k], text))
  {
    PatternShape(k);
  }

  // ---------------------------------------------------------------------------------------
  // Candidates

  /** What a match reports: a production date, or a shelf life in months. */
  datatype Finding = ProductionDate(date: Date) | ShelfLife(months: nat)

  /** One entry of the list `parse_date_patterns` returns: what was found, the whole text
      fragment it was found in, and the confidence in tenths. */
  datatype Candidate = Candidate(found: Finding, text: string, confidence: nat)

  /** The entry's 'type'. */
  function Kind(c: Candidate): (k: string)
    ensures k == "production_date" <==> c.found.ProductionDate?
  {
    if c.found.ProductionDate? then "production_date" else "shelf_life"
  }

  /** `int()` of a captured run of digits (every capture is one; see MatchGroupsFit). */
  function Num(t: string): nat
  {
    if AllDigits(t) then DigitsValue(t) else 0
  }

  /** The candidate for one match, by the number of items of the match: three give a date
      (0.8), two a year and month on the first day (0.6), one a shelf life (0.7). A year,
      month or day that is not a real date (`datetime` raises ValueError) gives nothing. */
  function MatchCandidate(items: seq<string>, text: string): (r: Option<Candidate>)
    ensures r.Some? ==> r.value.text == text
    ensures r.Some? && r.value.found.ProductionDate? ==> IsValidDate(r.value.found.date)
    ensures r.Some? ==> (r.value.confidence == 8 <==> |items| == 3)
                        && (r.value.confidence == 6 <==> |items| == 2)
                        && (r.value.confidence == 7 <==> r.value.found.ShelfLife?)
    ensures |items| == 1 <==> r.Some? && r.value.found.ShelfLife?
    ensures |items| == 3 ==>
              var d := Date(Num(items[0]), Num(items[1]), Num(items[2]));
              (r.Some? <==> IsValidDate(d)) && (r.Some? ==> r.value.found == ProductionDate(d))
    ensures |items| == 2 ==>
              var d := Date(Num(items[0]), Num(items[1]), 1);
              (r.Some? <==> IsValidDate(d)) && (r.Some? ==> r.value.found == ProductionDate(d))
    ensures |items| == 1 ==> r == Some(Candidate(ShelfLife(Num(items[0])), text, 7))
    ensures |items| == 0 || |items| > 3 ==> r.None?
  {
    if |items| == 3 then
      var d := Date(Num(items[0]), Num(items[1]), Num(items[2]));
      if IsValidDate(d) then Some(Candidate(ProductionDate(d), text, 8)) else None
    else if |items| == 2 then
      var d := Date(Num(items[0]), Num(items[1]), 1);
      if IsValidDate(d) then Some(Candidate(ProductionDate(d), text, 6)) else None
    else if |items| == 1 then
      Some(Candidate(ShelfLife(Num(items[0])), text, 7))
    else None
  }

  /** What `re.findall` yields for one match: the tuple of groups, except that a pattern
      with a single group yields the bare string, whose `len()` counts characters and whose
      items are its characters. */
  function Items(groups: seq<string>): (items: seq<string>)
    ensures |groups| != 1 ==> items == groups
    ensures |groups| == 1 ==> |items| == |groups[0]| && forall i :: 0 <= i < |items| ==> items[i] == [groups[0][i]]
  {
    if |groups| == 1 then seq(|groups[0]|, i requires 0 <= i < |groups[0]| => [groups[0][i]]) else groups
  }

  /** The candidate the recogniser's loop makes of one match as written: it dispatches on
      `len(match)`, so a two-digit shelf life such as `12` is read as year 1, month 2. */
  function AsWrittenCandidate(groups: seq<string>, text: string): (r: Option<Candidate>)
    ensures |groups| == 1 && |groups[0]| == 2 ==> r.None? || r.value.found.ProductionDate?
  {
    MatchCandidate(Items(groups), text)
  }

  /** How the loop reads a match: as the recogniser is written, dispatching on `len()` of what
      `findall` yields, or by the number of groups of the pattern, as evidently intended. */
  datatype Reading = AsWritten | ByGroups

  /** The candidate of one match under a reading. */
  function Read(rd: Reading, groups: seq<string>, text: string): Option<Candidate>
  {
    if rd == AsWritten then AsWrittenCandidate(groups, text) else MatchCandidate(groups, text)
  }

  /** The candidates of a sequence of matches of one pattern, in order. */
  function MatchesCandidates(ms: seq<seq<string>>, text: string, rd: Reading): seq<Candidate>
  {
    if ms == [] then []
    else
      var last := Read(rd, ms[|ms| - 1], text);
      MatchesCandidates(ms[..|ms| - 1], text, rd) + (if last.Some? then [last.value] else [])
  }

  /** The candidates of the first n patterns on one fragment. */
  function PatternsCandidates(text: string, n: nat, rd: Reading): seq<Candidate>
    requires n <= |Patterns|
  {
    if n == 0 then []
    else
      PatternsCandidates(text, n - 1, rd) + PatternCandidates(text, n - 1, rd)
  }

  /** The candidates of pattern k on one fragment, match by match. */
  function PatternCandidates(text: string, k: nat, rd: Reading): seq<Candidate>
    requires k < |Patterns|
  {
    PatternShape(k);
    MatchesCandidates(FindAll(Patterns[k], text), text, rd)
  }

  /** `parse_date_patterns(texts)`: fragment by fragment, pattern by pattern, match by match;
      the recogniser as written is the AsWritten reading. */
  function Candidates(texts: seq<string>, rd: Reading): seq<Candidate>
  {
    if texts == [] then []
    else Candidates(texts[..|texts| - 1], rd) + FragmentCandidates(texts[|texts| - 1], rd)
  }

  /** The candidates of one fragment, over all the patterns in order. */
  function FragmentCandidates(text: string, rd: Reading): seq<Candidate>
  {
    PatternsCandidates(text, |Patterns|, rd)
  }

  /** `parse_date_patterns`, as the nested loops of the recogniser: the outer loop over the
      fragments is here, the loops over the patterns and their matches in ScanFragment. */
  method ParseDatePatterns(texts: seq<string>) returns (dates: seq<Candidate>)
    ensures dates == Candidates(texts, AsWritten)
  {
    dates := [];
    for i := 0 to |texts|
      invariant dates == Candidates(texts[..i], AsWritten)
    {
      var found := ScanFragment(texts[i]);
      dates := dates + found;
      CandidatesStep(texts, i, AsWritten);
    }
    assert texts[..|texts|] == texts;
  }

  /** The two inner loops of `parse_date_patterns` on one fragment: every pattern in order,
      and for each the loop over its matches in ScanMatches. */
  method ScanFragment(text: string) returns (found: seq<Candidate>)
    ensures found == FragmentCandidates(text, AsWritten)
  {
    found := [];
    for j := 0 to |Patterns|
      invariant found == PatternsCandidates(text, j, AsWritten)
    {
      PatternShape(j);
      var matches := FindAll(Patterns[j], text);
      var more := ScanMatches(matches, text);
      PatternsStep(text, j, AsWritten);
      found := found + more;
    }
  }

  /** The innermost loop: every match in order, read by `len(match)`, keeping the candidates
      that are real dates. */
  method ScanMatches(matches: seq<seq<string>>, text: string) returns (found: seq<Candidate>)
    ensures found == MatchesCandidates(matches, text, AsWritten)
  {
    found := [];
    for k := 0 to |matches|
      invariant found == MatchesCandidates(matches[..k], text, AsWritten)
    {
      var c := AsWrittenCandidate(matches[k], text);
      if c.Some? {
        found := found + [c.value];
      }
      MatchesStep(matches, k, text, AsWritten);
    }
    assert matches[..|matches|] == matches;
  }

  lemma AppendAssoc<T>(a: seq<T>, b: seq<T>, c: seq<T>)
    ensures (a + b) + c == a + (b + c)
  {
  }

  lemma MatchesStep(ms: seq<seq<string>>, k: nat, text: string, rd: Reading)
    requires k < |ms|
    ensures var c := Read(rd, ms[k], text);
            MatchesCandidates(ms[..k + 1], text, rd) == MatchesCandidates(ms[..k], text, rd) + (if c.Some? then [c.value] else [])
  {
    assert ms[..k + 1][..k] == ms[..k];
  }

  lemma PatternsStep(text: string, j: nat, rd: Reading)
    requires j < |Patterns|
    ensures MinWidth(Patterns[j]) >= 1
    ensures var ms := FindAll(Patterns[j], text);
            PatternCandidates(text, j, rd) == MatchesCandidates(ms[..|ms|], text, rd)
  {
    PatternShape(j);
    var ms := FindAll(Patterns[j], text);
    assert ms[..|ms|] == ms;
  }

  lemma CandidatesStep(texts: seq<string>, i: nat, rd: Reading)
    requires i < |texts|
    ensures Candidates(texts[..i + 1], rd) == Candidates(texts[..i], rd) + FragmentCandidates(texts[i], rd)
  {
    assert texts[..i + 1][..i] == texts[..i];
  }

  // ---------------------------------------------------------------------------------------
  // Properties of the candidate list

  /** The fragments are read one after the other: the candidates of a + b are those of a
      followed by those of b. */
  lemma {:induction false} CandidatesAppend(a: seq<string>, b: seq<string>, rd: Reading)
    ensures Candidates(a + b, rd) == Candidates(a, rd) + Candidates(b, rd)
    decreases |b|
  {
    if b == [] {
      assert a + b == a;
    } else {
      var init, x := b[..|b| - 1], b[|b| - 1];
      assert b == init + [x];
      calc {
        Candidates(a + b, rd);
        { AppendAssoc(a, init, [x]); }
        Candidates((a + init) + [x], rd);
        { CandidatesSnoc(a + init, x, rd); }
        Candidates(a + init, rd) + FragmentCandidates(x, rd);
        { CandidatesAppend(a, init, rd); }
        (Candidates(a, rd) + Candidates(init, rd)) + FragmentCandidates(x, rd);
        { AppendAssoc(Candidates(a, rd), Candidates(init, rd), FragmentCandidates(x, rd)); }
        Candidates(a, rd) + (Candidates(init, rd) + FragmentCandidates(x, rd));
        { CandidatesSnoc(init, x, rd); }
        Candidates(a, rd) + Candidates(b, rd);
      }
    }
  }

  lemma CandidatesSnoc(texts: seq<string>, text: string, rd: Reading)
    ensures Candidates(texts + [text], rd) == Candidates(texts, rd) + FragmentCandidates(text, rd)
  {
    assert (texts + [text])[..|texts|] == texts;
  }

  /** What every candidate satisfies: it names a fragment it came from, a date candidate holds
      a real date, and the confidence says which kind of match produced it. */
  predicate WellFormedCandidate(c: Candidate, texts: seq<string>)
  {
    c.text in texts
    && (c.found.ProductionDate? ==> IsValidDate(c.found.date) && (c.confidence == 8 || c.confidence == 6))
    && (c.found.ShelfLife? ==> c.confidence == 7 && c.found.months <= 99)
  }

  /** Under either reading, every candidate comes from one of the fragments, a date is a real
      one at 0.8 or 0.6, and a shelf life is at most 99 months at 0.7. */
  lemma {:induction false} CandidatesWellFormed(texts: seq<string>, rd: Reading)
    ensures forall c :: c in Candidates(texts, rd) ==> WellFormedCandidate(c, texts)
    decreases |texts|
  {
    if texts != [] {
      var init := texts[..|texts| - 1];
      var last := texts[|texts| - 1];
      CandidatesWellFormed(init, rd);
      forall c | c in Candidates(init, rd) ensures WellFormedCandidate(c, texts) {
        assert forall t :: t in init ==> t in texts;
      }
      PatternsWellFormed(last, |Patterns|, rd);
      assert forall c :: c in FragmentCandidates(last, rd) ==> WellFormedCandidate(c, texts);
    }
  }

  lemma {:induction false} PatternsWellFormed(text: string, n: nat, rd: Reading)
    requires n <= |Patterns|
    ensures forall c :: c in PatternsCandidates(text, n, rd) ==> WellFormedCandidate(c, [text])
  {
    if n > 0 {
      PatternsWellFormed(text, n - 1, rd);
      PatternWellFormed(text, n - 1, rd);
    }
  }

  lemma PatternWellFormed(text: string, k: nat, rd: Reading)
    requires k < |Patterns|
    ensures forall c :: c in PatternCandidates(text, k, rd) ==> WellFormedCandidate(c, [text])
  {
    MatchGroupsFit(k, text);
    MatchesWellFormed(k, FindAll(Patterns[k], text), text, rd);
  }

  lemma {:induction false} MatchesWellFormed(k: nat, ms: seq<seq<string>>, text: string, rd: Reading)
    requires k < |Patterns| && MatchesFit(k, ms)
    ensures forall c :: c in MatchesCandidates(ms, text, rd) ==> WellFormedCandidate(c, [text])
    decreases |ms|
  {
    if ms != [] {
      MatchesWellFormed(k, ms[..|ms| - 1], text, rd);
      var m := ms[|ms| - 1];
      assert m in ms;
      OneCandidateWellFormed(k, m, text, rd);
    }
  }

  lemma OneCandidateWellFormed(k: nat, m: seq<string>, text: string, rd: Reading)
    requires k < |Patterns|
    requires |m| == |GroupsOf(k)| && forall x :: 0 <= x < |m| ==> FitsSome(m[x], GroupsOf(k)[x])
    ensures var c := Read(rd, m, text); c.Some? ==> WellFormedCandidate(c.value, [text])
  {
    if |m| == 1 {
      assert k == ShelfLifePattern;
      ShortRun(m[0]);
      if |m[0]| == 1 {
        assert m[0] == [m[0][0]];
        assert Items(m) == m;
      }
    }
  }

  /** A `\d{1,2}` capture is at most 99. */
  lemma ShortRun(t: string)
    requires FitsSome(t, D12)
    ensures AllDigits(t) && Num(t) <= 99
  {
    if |t| == 1 {
      OneDigitValue(t);
    } else {
      TwoDigitsValue(t);
    }
  }

  // ---------------------------------------------------------------------------------------
  // The shelf-life pattern read by `len(match)`

  /** The loop as written and the group-count reading agree on every match except a
      two-digit shelf life. */
  lemma AsWrittenDiffers(k: nat, m: seq<string>, text: string)
    requires k < |Patterns|
    requires |m| == |GroupsOf(k)| && forall x :: 0 <= x < |m| ==> FitsSome(m[x], GroupsOf(k)[x])
    ensures AsWrittenCandidate(m, text) != MatchCandidate(m, text) <==> k == ShelfLifePattern && |m[0]| == 2
  {
    if |m| == 1 {
      assert k == ShelfLifePattern;
      assert FitsSome(m[0], D12);
      if |m[0]| == 1 {
        assert m[0] == [m[0][0]];
        assert Items(m) == m;
      }
    }
  }

  /** The recogniser's own sample text for a shelf life of twelve months. */
  const TwelveMonths: string := "保质期：12个月"

  /** `保质期：12个月` is matched by the shelf-life pattern with the capture `12`, which the
      loop as written reads as the date 0001-02-01 at confidence 0.6 instead of a
      twelve-month shelf life at 0.7. */
  lemma TwelveMonthsMisread()
    ensures FindAll(Patterns[ShelfLifePattern], TwelveMonths) == [["12"]]
    ensures AsWrittenCandidate(["12"], TwelveMonths) == Some(Candidate(ProductionDate(Date(1, 2, 1)), TwelveMonths, 6))
    ensures MatchCandidate(["12"], TwelveMonths) == Some(Candidate(ShelfLife(12), TwelveMonths, 7))
  {
    var t, p := TwelveMonths, Patterns[ShelfLifePattern];
    Shape7();
    TwelveMonthsMatch();
    assert MatchAt(p, t, 8).None?;
    assert FindAllFrom(p, t, 8) == [];
    assert Items(["12"]) == ["1", "2"];
    assert DigitsValue("12") == 12 by { TwoDigitsValue("12"); }
    assert DigitsValue("1") == 1 && DigitsValue("2") == 2 by { OneDigitValue("1"); OneDigitValue("2"); }
  }

  lemma TwelveMonthsMatch()
    ensures MatchAt(Patterns[ShelfLifePattern], TwelveMonths, 0) == Some(Match(8, ["12"]))
  {
    var t, p := TwelveMonths, Patterns[ShelfLifePattern];
    TwelveMonthsCapture();
    assert p[3..][1..] == p[4..];
    assert MatchAt(p[3..], t, 3) == Some(Match(8, ["12"]));
    assert p[2..][1..] == p[3..];
    assert MatchAt(p[2..], t, 2) == Some(Match(8, ["12"]));
    assert p[1..][1..] == p[2..];
    assert MatchAt(p[1..], t, 1) == Some(Match(8, ["12"]));
  }

  lemma TwelveMonthsCapture()
    ensures MatchAt(Patterns[ShelfLifePattern][4..], TwelveMonths, 4) == Some(Match(8, ["12"]))
  {
    var t, p := TwelveMonths, Patterns[ShelfLifePattern][4..];
    assert MatchAt(p[2..], t, 7) == Some(Match(8, []));
    assert RunLength(t, 6, OneOf("个")) == 1;
    assert MatchAt(p[1..], t, 6) == Some(Match(8, []));
    assert t[4..6] == "12" && Fits(t[4..6], D12[0]);
    assert p[0] == Group(D12) && |D12[0]| == 2;
    assert [t[4..6]] + [] == ["12"];
    assert TryAlts(p, t, 4, 0) == Some(Match(8, ["12"]));
  }

  /** On the sample, only the shelf-life pattern matches. */
  lemma TwelveMonthsOnlyShelfLife(k: nat)
    requires k < |Patterns| && k != ShelfLifePattern
    ensures MinWidth(Patterns[k]) >= 1 && FindAll(Patterns[k], TwelveMonths) == []
  {
    PatternShape(k);
    var t, p := TwelveMonths, Patterns[k];
    if k <= 3 {
      forall i | 0 <= i <= |t| ensures !FourDigitsAt(t, i) {
        if i < 4 {
          assert t[i..i + 4][0] == t[i];
        } else if i == 4 {
          assert t[i..i + 4][2] == t[6];
        }
      }
      YearFirstAbsent(p, t);
    } else if k == 4 || k == 5 {
      CharsAbsent(p, t, 0, '生');
    } else if k == 6 {
      CharsAbsent(p, t, 0, '制');
    } else {
      CharsAbsent(p, t, 3, '至');
    }
  }

  /** The text has four digits from position i. */
  predicate FourDigitsAt(s: string, i: nat)
  {
    i + 4 <= |s| && Fits(s[i..i + 4], D4[0])
  }

  /** A pattern that starts with `(\d{4})` matches nowhere in a text without four digits in
      a row. */
  lemma YearFirstAbsent(p: Pattern, s: string)
    requires p != [] && p[0] == Group(D4)
    requires forall i :: 0 <= i <= |s| ==> !FourDigitsAt(s, i)
    ensures forall i :: 0 <= i <= |s| ==> MatchAt(p, s, i).None?
  {
    forall i | 0 <= i <= |s| ensures MatchAt(p, s, i).None? {
      assert !FourDigitsAt(s, i);
      AltPassed(p, s, i, 0);
      assert TryAlts(p, s, i, 1).None?;
    }
  }

  /** A pattern that reads k fixed characters and then a character the text lacks matches
      nowhere. */
  lemma {:induction false} CharsAbsent(p: Pattern, s: string, k: nat, c: char)
    requires k < |p| && (forall j :: 0 <= j < k ==> p[j].Char?) && p[k] == Lit(c) && c !in s
    ensures forall i :: 0 <= i <= |s| ==> MatchAt(p, s, i).None?
    decreases k
  {
    if k > 0 {
      CharsAbsent(p[1..], s, k - 1, c);
    }
    forall i | 0 <= i <= |s| ensures MatchAt(p, s, i).None? {
      if i < |s| {
        assert s[i] in s;
      }
    }
  }

  /** The first n patterns find nothing on the sample when n stops short of the shelf-life
      pattern. */
  lemma {:induction false} TwelveMonthsBefore(n: nat, rd: Reading)
    requires n <= ShelfLifePattern
    ensures PatternsCandidates(TwelveMonths, n, rd) == []
  {
    if n > 0 {
      TwelveMonthsBefore(n - 1, rd);
      TwelveMonthsOnlyShelfLife(n - 1);
    }
  }

  /** `parse_date_patterns(['保质期：12个月'])`: as written, the date 0001-02-01 at 0.6; read by
      groups, a shelf life of twelve months at 0.7. */
  lemma TwelveMonthsParsed()
    ensures Candidates([TwelveMonths], AsWritten) == [Candidate(ProductionDate(Date(1, 2, 1)), TwelveMonths, 6)]
    ensures Candidates([TwelveMonths], ByGroups) == [Candidate(ShelfLife(12), TwelveMonths, 7)]
  {
    TwelveMonthsMisread();
    TwelveMonthsFragment(AsWritten);
    TwelveMonthsFragment(ByGroups);
    assert [TwelveMonths][..0] == [];
  }

  lemma TwelveMonthsFragment(rd: Reading)
    ensures Read(rd, ["12"], TwelveMonths).Some?
    ensures FragmentCandidates(TwelveMonths, rd) == [Read(rd, ["12"], TwelveMonths).value]
  {
    TwelveMonthsThroughShelf(rd);
    TwelveMonthsOnlyShelfLife(8);
  }

  lemma TwelveMonthsThroughShelf(rd: Reading)
    ensures Read(rd, ["12"], TwelveMonths).Some?
    ensures PatternsCandidates(TwelveMonths, ShelfLifePattern + 1, rd) == [Read(rd, ["12"], TwelveMonths).value]
  {
    TwelveMonthsShelf(rd);
    TwelveMonthsBefore(ShelfLifePattern, rd);
  }

  lemma TwelveMonthsShelf(rd: Reading)
    ensures Read(rd, ["12"], TwelveMonths).Some?
    ensures PatternCandidates(TwelveMonths, ShelfLifePattern, rd) == [Read(rd, ["12"], TwelveMonths).value]
  {
    TwelveMonthsMisread();
    var ms: seq<seq<string>> := [["12"]];
    assert ms[..0] == [];
  }

  // ---------------------------------------------------------------------------------------
  // recognize_date's choice

  /** `max(dates, key=confidence)`: the first candidate with the highest confidence. */
  function Best(cs: seq<Candidate>): (i: nat)
    requires cs != []
    ensures i < |cs|
    ensures forall j :: 0 <= j < |cs| ==> cs[j].confidence <= cs[i].confidence
    ensures forall j :: 0 <= j < i ==> cs[j].confidence < cs[i].confidence
  {
    if |cs| == 1 then 0
    else
      var b := Best(cs[..|cs| - 1]);
      assert cs[b] == cs[..|cs| - 1][b];
      if cs[|cs| - 1].confidence > cs[b].confidence then |cs| - 1 else b
  }

  /** The recognition result: nothing without text or without a candidate, otherwise the
      most confident candidate, the earliest among equals. */
  method RecognizeDate(texts: seq<string>) returns (r: Option<Candidate>)
    ensures texts == [] || Candidates(texts, AsWritten) == [] <==> r.None?
    ensures r.Some? ==> var cs := Candidates(texts, AsWritten); r.value == cs[Best(cs)]
    ensures r.Some? ==> WellFormedCandidate(r.value, texts)
  {
    if texts == [] {
      return None;
    }
    var dates := ParseDatePatterns(texts);
    if dates == [] {
      return None;
    }
    CandidatesWellFormed(texts, AsWritten);
    r := Some(dates[Best(dates)]);
  }

  // ---------------------------------------------------------------------------------------
  // Expiry arithmetic

  /** `calculate_expiry_date`: a truthy month count adds 30 days a month, else a truthy day
      count adds those days, else 180 days; a result outside the calendar (OverflowError,
      caught) is None, and so is a missing production date (TypeError, caught). Python's
      truthiness makes 0 and None alike. */
  function CalculateExpiryDate(production: Option<Date>, months: Option<int>, days: Option<int>): (r: Option<Date>)
    requires production.Some? ==> IsValidDate(production.value)
    ensures production.None? ==> r.None?
    ensures r.Some? ==> IsValidDate(r.value)
    ensures r.Some? ==> DaysBetween(r.value, production.value) == ShelfLifeDays(months, days)
    ensures production.Some? ==> (r.None? <==> !(1 <= ToOrdinal(production.value) + ShelfLifeDays(months, days) <= MaxOrdinal))
  {
    if production.None? then None else AddDays(production.value, ShelfLifeDays(months, days))
  }

  /** The number of days the expiry date lies after the production date. */
  function ShelfLifeDays(months: Option<int>, days: Option<int>): int
  {
    if months.Some? && months.value != 0 then months.value * 30
    else if days.Some? && days.value != 0 then days.value
    else 180
  }

  /** `get_days_remaining`: days from today to the expiry date; a missing date fails inside
      the guarded block and gives 0. */
  function GetDaysRemaining(expiry: Option<Date>, today: Date): (r: int)
    requires IsValidDate(today) && (expiry.Some? ==> IsValidDate(expiry.value))
    ensures expiry.Some? ==> r == ToOrdinal(expiry.value) - ToOrdinal(today)
    ensures expiry.None? ==> r == 0
  {
    if expiry.None? then 0 else DaysBetween(expiry.value, today)
  }

  /** Computed on the production day, the days remaining are the shelf life in days. */
  lemma RemainingOnProductionDay(production: Date, months: Option<int>, days: Option<int>)
    requires IsValidDate(production)
    requires CalculateExpiryDate(Some(production), months, days).Some?
    ensures GetDaysRemaining(CalculateExpiryDate(Some(production), months, days), production)
            == ShelfLifeDays(months, days)
  {
  }

  /** Each day that passes takes one day off the days remaining. */
  lemma RemainingCountsDown(expiry: Date, today: Date)
    requires IsValidDate(expiry) && IsValidDate(today) && ToOrdinal(today) < MaxOrdinal
    ensures AddDays(today, 1).Some?
    ensures GetDaysRemaining(Some(expiry), AddDays(today, 1).value) == GetDaysRemaining(Some(expiry), today) - 1
  {
    OrdinalRange(today);
  }

  /** The default shelf life is 180 days; months are 30 days each; months win over days. */
  lemma ShelfLifeRules(m: int, d: int)
    ensures ShelfLifeDays(None, None) == 180 && ShelfLifeDays(Some(0), Some(0)) == 180
    ensures m != 0 ==> ShelfLifeDays(Some(m), Some(d)) == 30 * m
    ensures d != 0 ==> ShelfLifeDays(None, Some(d)) == d && ShelfLifeDays(Some(0), Some(d)) == d
  {
  }
}
