/** The fragment of Python's `re` that the date patterns use, as data, and a backtracking
    matcher that tries choices in Python's order: a greedy `c?` tries the character before
    skipping it, a greedy `[...]*` tries the longest run first, and a group's alternatives
    are tried left to right, each followed by the rest of the pattern. The first complete
    match in that order is the one `re.match`, `re.search` and `re.findall` report.
    Bounded repetitions such as `\d{1,2}` or `0?[1-9]` inside a group are written as the
    list of fixed-width alternatives in the order the engine tries them
    (`\d{1,2}` is `\d\d | \d`, `0?[1-9]` is `0[1-9] | [1-9]`). */
module Regex {
  import opened Text

  /** A one-character class: `\d` (ASCII digits here), a set `[...]`, or a range. */
  datatype CharClass = Digit | OneOf(chars: seq<char>) | Range(lo: char, hi: char)

  predicate InClass(c: char, cc: CharClass)
  {
    match cc
    case Digit => IsDigit(c)
    case OneOf(cs) => c in cs
    case Range(lo, hi) => lo <= c <= hi
  }

  /** One fixed-width alternative of a group: a sequence of character classes. */
  type Alt = seq<CharClass>

  datatype Elem =
    | Char(cc: CharClass)            // one character outside any group
    | Optional(c: char)              // `c?`, greedy
    | Many(cc: CharClass)            // `[...]*`, greedy
    | Boundary                       // `\b`
    | Group(alts: seq<Alt>)          // `( a1 | a2 | ... )`, capturing

  type Pattern = seq<Elem>

  datatype Match = Match(end: nat, groups: seq<string>)

  /** Python's Unicode `\w`, restricted to ASCII letters, digits and `_`, the CJK unified
      ideographs (with extension A) and the full-width digits and letters. */
  predicate IsWordChar(c: char)
  {
    ('a' <= c <= 'z') || ('A' <= c <= 'Z') || ('0' <= c <= '9') || c == '_'
    || ('\U{3400}' <= c <= '\U{4DBF}') || ('\U{4E00}' <= c <= '\U{9FFF}')
    || ('\U{FF10}' <= c <= '\U{FF19}') || ('\U{FF21}' <= c <= '\U{FF3A}') || ('\U{FF41}' <= c <= '\U{FF5A}')
  }

  /** `\b` at position i: a word character on exactly one side. */
  predicate IsBoundary(s: string, i: nat)
    requires i <= |s|
  {
    (i > 0 && IsWordChar(s[i - 1])) != (i < |s| && IsWordChar(s[i]))
  }

  /** `text` is exactly one alternative's width and each character is in its class. */
  predicate Fits(text: string, alt: Alt)
  {
    |text| == |alt| && forall j :: 0 <= j < |text| ==> InClass(text[j], alt[j])
  }

  predicate FitsSome(text: string, alts: seq<Alt>)
  {
    exists k :: 0 <= k < |alts| && Fits(text, alts[k])
  }

  /** The alternatives of the pattern's groups, in order: group k of a match fits GroupAlts(p)[k]. */
  function GroupAlts(p: Pattern): seq<seq<Alt>>
  {
    if p == [] then []
    else if p[0].Group? then [p[0].alts] + GroupAlts(p[1..])
    else GroupAlts(p[1..])
  }

  function MinAltWidth(alts: seq<Alt>): nat
  {
    if alts == [] then 0
    else if |alts| == 1 then |alts[0]|
    else var m := MinAltWidth(alts[1..]); if |alts[0]| < m then |alts[0]| else m
  }

  /** A lower bound on the number of characters any match of p consumes. */
  function MinWidth(p: Pattern): nat
  {
    if p == [] then 0
    else
      (match p[0]
       case Char(_) => 1
       case Group(alts) => MinAltWidth(alts)
       case _ => 0) + MinWidth(p[1..])
  }

  /** GroupAlts and MinWidth of a pattern, one element at a time; past the end, no groups. */
  lemma Step(p: Pattern)
    ensures p != [] ==> GroupAlts(p) == (if p[0].Group? then [p[0].alts] else []) + GroupAlts(p[1..])
    ensures p != [] ==> MinWidth(p) >= (if p[0].Char? then 1 else 0) + MinWidth(p[1..])
    ensures p == [] ==> GroupAlts(p) == []
  {
  }

  lemma {:induction false} MinAltWidthLe(alts: seq<Alt>, k: nat)
    requires k < |alts|
    ensures MinAltWidth(alts) <= |alts[k]|
  {
    if k > 0 && |alts| > 1 {
      MinAltWidthLe(alts[1..], k - 1);
    }
  }

  /** The result contract every matching function below keeps. */
  predicate WellFormed(p: Pattern, s: string, i: nat, r: Option<Match>)
  {
    r.Some? ==>
      i + MinWidth(p) <= r.value.end <= |s|
      && |r.value.groups| == |GroupAlts(p)|
      && forall k :: 0 <= k < |r.value.groups| ==> FitsSome(r.value.groups[k], GroupAlts(p)[k])
  }

  /** Matches p at exactly position i (`re.match` from i), backtracking in Python's order. */
  function MatchAt(p: Pattern, s: string, i: nat): (r: Option<Match>)
    requires i <= |s|
    ensures WellFormed(p, s, i, r)
    decreases |p|, 1, 0
  {
    if p == [] then Some(Match(i, []))
    else
      var rest := p[1..];
      match p[0]
      case Char(cc) =>
        if i < |s| && InClass(s[i], cc) then Lift(p, s, i, MatchAt(rest, s, i + 1)) else None
      case Optional(c) =>
        var taken := if i < |s| && s[i] == c then Lift(p, s, i, MatchAt(rest, s, i + 1)) else None;
        if taken.Some? then taken else Lift(p, s, i, MatchAt(rest, s, i))
      case Many(cc) =>
        TryRun(p, s, i, RunLength(s, i, cc))
      case Boundary =>
        if IsBoundary(s, i) then Lift(p, s, i, MatchAt(rest, s, i)) else None
      case Group(alts) =>
        TryAlts(p, s, i, 0)
  }

  /** Carries a match of p[1..] back to p when p[0] consumed no capturing group. */
  function Lift(p: Pattern, s: string, i: nat, r: Option<Match>): (q: Option<Match>)
    requires p != [] && !p[0].Group? && i <= |s|
    requires WellFormed(p[1..], s, i + (if p[0].Char? then 1 else 0), r)
    requires p[0].Char? ==> i < |s|
    requires p[0].Optional? && r.Some? ==> r.value.end >= i
    ensures q == r && WellFormed(p, s, i, q)
  {
    assert GroupAlts(p) == GroupAlts(p[1..]);
    r
  }

  /** Number of consecutive characters of class cc from position i. */
  function RunLength(s: string, i: nat, cc: CharClass): (n: nat)
    requires i <= |s|
    ensures i + n <= |s|
    ensures forall j :: i <= j < i + n ==> InClass(s[j], cc)
    decreases |s| - i
  {
    if i < |s| && InClass(s[i], cc) then 1 + RunLength(s, i + 1, cc) else 0
  }

  /** `[...]*`: tries the rest of the pattern after k, k-1, ..., 0 repetitions. */
  function TryRun(p: Pattern, s: string, i: nat, k: nat): (r: Option<Match>)
    requires p != [] && p[0].Many? && i + k <= |s|
    ensures WellFormed(p, s, i, r)
    decreases |p|, 0, k
  {
    var m := MatchAt(p[1..], s, i + k);
    assert GroupAlts(p) == GroupAlts(p[1..]);
    if m.Some? then m
    else if k == 0 then None
    else TryRun(p, s, i, k - 1)
  }

  /** A group: tries alternatives j, j+1, ... each followed by the rest of the pattern. */
  function TryAlts(p: Pattern, s: string, i: nat, j: nat): (r: Option<Match>)
    requires p != [] && p[0].Group? && i <= |s|
    ensures WellFormed(p, s, i, r)
    decreases |p|, 0, |p[0].alts| - j
  {
    var alts := p[0].alts;
    if j >= |alts| then None
    else
      var w := |alts[j]|;
      if i + w <= |s| && Fits(s[i..i + w], alts[j]) then
        var m := MatchAt(p[1..], s, i + w);
        if m.Some? then
          MinAltWidthLe(alts, j);
          var r := Match(m.value.end, [s[i..i + w]] + m.value.groups);
          assert GroupAlts(p) == [alts] + GroupAlts(p[1..]);
          assert FitsSome(r.groups[0], GroupAlts(p)[0]);
          assert forall k :: 1 <= k < |r.groups| ==> r.groups[k] == m.value.groups[k - 1];
          Some(r)
        else TryAlts(p, s, i, j + 1)
      else TryAlts(p, s, i, j + 1)
  }

  /** A group is matched by trying its alternatives from the first. */
  lemma GroupStep(p: Pattern, s: string, i: nat)
    requires p != [] && p[0].Group? && i <= |s|
    ensures MatchAt(p, s, i) == TryAlts(p, s, i, 0)
  {
  }

  /** One step of a match: a character of the class is consumed. */
  lemma CharStep(p: Pattern, s: string, i: nat)
    requires p != [] && p[0].Char? && i < |s| && InClass(s[i], p[0].cc)
    ensures MatchAt(p, s, i) == MatchAt(p[1..], s, i + 1)
  {
  }

  /** One step of a match: a word boundary consumes nothing. */
  lemma BoundaryStep(p: Pattern, s: string, i: nat)
    requires p != [] && p[0] == Boundary && i <= |s| && IsBoundary(s, i)
    ensures MatchAt(p, s, i) == MatchAt(p[1..], s, i)
  {
  }

  /** One step of a match: a group whose first alternative fits and is followed by a match of
      the rest captures that alternative's text. */
  lemma FirstAltStep(p: Pattern, s: string, i: nat, m: Match)
    requires p != [] && p[0].Group? && p[0].alts != [] && i + |p[0].alts[0]| <= |s|
    requires Fits(s[i..i + |p[0].alts[0]|], p[0].alts[0])
    requires MatchAt(p[1..], s, i + |p[0].alts[0]|) == Some(m)
    ensures MatchAt(p, s, i) == Some(Match(m.end, [s[i..i + |p[0].alts[0]|]] + m.groups))
  {
  }

  /** A group tried from alternative j: an alternative that fits and is followed by a match
      of the rest is taken. */
  lemma AltTaken(p: Pattern, s: string, i: nat, j: nat, m: Match)
    requires p != [] && p[0].Group? && j < |p[0].alts| && i + |p[0].alts[j]| <= |s|
    requires Fits(s[i..i + |p[0].alts[j]|], p[0].alts[j])
    requires MatchAt(p[1..], s, i + |p[0].alts[j]|) == Some(m)
    ensures TryAlts(p, s, i, j) == Some(Match(m.end, [s[i..i + |p[0].alts[j]|]] + m.groups))
  {
  }

  /** A group tried from alternative j: an alternative that does not fit, or after which the
      rest does not match, is passed over. */
  lemma AltPassed(p: Pattern, s: string, i: nat, j: nat)
    requires p != [] && p[0].Group? && j < |p[0].alts| && i <= |s|
    requires i + |p[0].alts[j]| <= |s| && Fits(s[i..i + |p[0].alts[j]|], p[0].alts[j])
             ==> MatchAt(p[1..], s, i + |p[0].alts[j]|).None?
    ensures TryAlts(p, s, i, j) == TryAlts(p, s, i, j + 1)
  {
  }

  /** `re.search` from position i: the leftmost start at or after i where p matches,
      with that match. */
  function SearchFrom(p: Pattern, s: string, i: nat): (r: Option<(nat, Match)>)
    requires i <= |s|
    ensures r.Some? ==> i <= r.value.0 <= |s| && MatchAt(p, s, r.value.0) == Some(r.value.1)
    ensures r.Some? ==> forall j :: i <= j < r.value.0 ==> MatchAt(p, s, j).None?
    ensures r.None? ==> forall j :: i <= j <= |s| ==> MatchAt(p, s, j).None?
    decreases |s| - i
  {
    var m := MatchAt(p, s, i);
    if m.Some? then Some((i, m.value))
    else if i == |s| then None
    else SearchFrom(p, s, i + 1)
  }

  /** `re.findall` from position i for a pattern whose matches are never empty: the groups of
      each non-overlapping match, scanning left to right and resuming where a match ended. */
  function FindAllFrom(p: Pattern, s: string, i: nat): (r: seq<seq<string>>)
    requires i <= |s| && MinWidth(p) >= 1
    ensures forall k :: 0 <= k < |r| ==> |r[k]| == |GroupAlts(p)|
    ensures forall k, g :: 0 <= k < |r| && 0 <= g < |r[k]| ==> FitsSome(r[k][g], GroupAlts(p)[g])
    decreases |s| - i
  {
    var m := SearchFrom(p, s, i);
    if m.None? then []
    else
      var rest := FindAllFrom(p, s, m.value.1.end);
      var r := [m.value.1.groups] + rest;
      assert forall k :: 1 <= k < |r| ==> r[k] == rest[k - 1];
      r
  }

  function FindAll(p: Pattern, s: string): (r: seq<seq<string>>)
    requires MinWidth(p) >= 1
    ensures forall k :: 0 <= k < |r| ==> |r[k]| == |GroupAlts(p)|
    ensures forall k, g :: 0 <= k < |r| && 0 <= g < |r[k]| ==> FitsSome(r[k][g], GroupAlts(p)[g])
  {
    FindAllFrom(p, s, 0)
  }

  /** The first element of `re.findall`, when there is one, is the leftmost match. */
  lemma FindAllHead(p: Pattern, s: string)
    requires MinWidth(p) >= 1
    ensures FindAll(p, s) == [] <==> SearchFrom(p, s, 0).None?
    ensures FindAll(p, s) != [] ==> FindAll(p, s)[0] == SearchFrom(p, s, 0).value.1.groups
  {
  }
}
