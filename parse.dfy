/** The post parser (src/utils/parse.ts): the Hindi date line, the known
    places (direct matches plus the heuristic on the words before "में"),
    the action keywords, the hashtags and mentions, and the trimmed text. */
module Parse {
  import opened Text
  import opened Patterns

  /* -------------------------------------------------------------- dates */

  const Months: seq<string> := ["जनवरी", "फ़रवरी", "मार्च", "अप्रैल", "मई", "जून", "जुलाई", "अगस्त", "सितंबर", "अक्टूबर", "नवंबर", "दिसंबर"]

  const Days: seq<string> := ["रविवार", "सोमवार", "मंगलवार", "बुधवार", "गुरुवार", "शुक्रवार", "शनिवार"]

  const MsPerDay := 86400000

  /** The largest magnitude of a valid JavaScript time value. */
  const MaxTime := 8640000000000000

  /** The proleptic Gregorian (year, month 1..12, day 1..31) of a day count
      from 1970-01-01, as `getUTCFullYear`, `getUTCMonth() + 1` and
      `getUTCDate` give it. Days are counted in 400-year eras starting on
      1 March of the year 0. */
  function CivilFromDays(z: int): (r: (int, int, int))
    ensures 1 <= r.1 <= 12 && 1 <= r.2 <= 31
  {
    var zz := z + 719468;
    var era := zz / 146097;
    var e := EraDate(zz % 146097);
    (if e.1 <= 2 then e.0 + era * 400 + 1 else e.0 + era * 400, e.1, e.2)
  }

  /** The year of the era, month and day of day `doe` of an era. */
  function EraDate(doe: int): (r: (int, int, int))
    requires 0 <= doe < 146097
    ensures 1 <= r.1 <= 12 && 1 <= r.2 <= 31
  {
    var yoe := (doe - doe / 1460 + doe / 36524 - doe / 146096) / 365;
    DayOfYear(doe, yoe);
    var doy := doe - (365 * yoe + yoe / 4 - yoe / 100);
    var mp := (5 * doy + 2) / 153;
    var d := doy - (153 * mp + 2) / 5 + 1;
    var m := if mp < 10 then mp + 3 else mp - 9;
    (yoe, m, d)
  }

  /** The day count of a calendar date: the inverse of `CivilFromDays`. */
  function DaysFromCivil(y: int, m: int, d: int): int
  {
    var yy := if m <= 2 then y - 1 else y;
    var era := yy / 400;
    var yoe := yy % 400;
    var mp := if m > 2 then m - 3 else m + 9;
    var doy := (153 * mp + 2) / 5 + d - 1;
    var doe := yoe * 365 + yoe / 4 - yoe / 100 + doy;
    era * 146097 + doe - 719468
  }

  lemma DivMod400(a: int, q: int, r: int)
    requires 0 <= r < 400 && a == q * 400 + r
    ensures a / 400 == q && a % 400 == r
  {
  }

  /** Division by one of the calendar's constants, from its bounds. */
  lemma DivIs(x: int, d: int, q: int)
    requires d == 4 || d == 100 || d == 365 || d == 1460 || d == 36524 || d == 146096 || d == 146097
    requires d * q <= x < d * q + d
    ensures x / d == q && x % d == x - d * q
  {
    if d == 4 {
    } else if d == 100 {
    } else if d == 365 {
    } else if d == 1460 {
    } else if d == 36524 {
    } else if d == 146096 {
    } else {
    }
  }

  /** The last day of an era is the 366th day of its 400th year. */
  lemma LastDayOfEra(yoe: int)
    requires yoe == (146096 - 146096 / 1460 + 146096 / 36524 - 146096 / 146096) / 365
    ensures yoe == 399 && 146096 - (365 * yoe + yoe / 4 - yoe / 100) == 365
  {
    DivIs(146096, 1460, 100);
    DivIs(146096, 36524, 4);
    DivIs(146096, 146096, 1);
    DivIs(145999, 365, 399);
    DivIs(399, 4, 99);
    DivIs(399, 100, 3);
  }

  /** A day `doe` of an era, other than its last, is day `u` of year `t` of
      4-year cycle `m` of century `k`; its quotients `a`, `b`, `c`, `yoe`,
      `p` and `q` are given by their bounds, so that everything is linear. */
  lemma DayInCycle(doe: int, k: int, m: int, t: int, u: int, a: int, b: int, c: int, yoe: int, p: int, q: int)
    requires 0 <= k <= 3 && 0 <= m <= 24 && 0 <= t <= 4 && 0 <= u < 365
    requires t == 4 ==> u == 0
    requires m == 24 ==> 365 * t + u < 1460
    requires doe == 36524 * k + 1461 * m + 365 * t + u
    requires 1460 * a <= doe < 1460 * a + 1460
    requires 36524 * b <= doe < 36524 * b + 36524
    requires 146096 * c <= doe < 146096 * c + 146096
    requires 365 * yoe <= doe - a + b - c < 365 * yoe + 365
    requires 4 * p <= yoe < 4 * p + 4 && 100 * q <= yoe < 100 * q + 100
    ensures 0 <= yoe < 400 && 0 <= doe - (365 * yoe + p - q) <= 365
  {
    var e := if 24 * k + m + 365 * t + u >= 1460 then 1 else 0;
    assert a == 25 * k + m + e;
    assert b == k && c == 0;
    var tp := if t == 4 then 3 else t;
    assert yoe == 100 * k + 4 * m + tp;
    assert p == 25 * k + m && q == k;
  }

  /** The year of the era is below 400 and the day of that year below 366. */
  lemma DayOfYear(doe: int, yoe: int)
    requires 0 <= doe < 146097
    requires yoe == (doe - doe / 1460 + doe / 36524 - doe / 146096) / 365
    ensures 0 <= yoe < 400
    ensures 0 <= doe - (365 * yoe + yoe / 4 - yoe / 100) <= 365
  {
    if doe == 146096 {
      LastDayOfEra(yoe);
    } else {
      var r := doe % 36524;
      var s := r % 1461;
      DayInCycle(doe, doe / 36524, r / 1461, s / 365, s % 365, doe / 1460, doe / 36524, doe / 146096, yoe, yoe / 4, yoe / 100);
    }
  }

  lemma EraBounds(doe: int) returns (yoe: int, doy: int, mp: int)
    requires 0 <= doe < 146097
    ensures yoe == (doe - doe / 1460 + doe / 36524 - doe / 146096) / 365
    ensures doy == doe - (365 * yoe + yoe / 4 - yoe / 100)
    ensures mp == (5 * doy + 2) / 153
    ensures 0 <= yoe < 400 && 0 <= doy <= 365 && 0 <= mp <= 11
  {
    yoe := (doe - doe / 1460 + doe / 36524 - doe / 146096) / 365;
    doy := doe - (365 * yoe + yoe / 4 - yoe / 100);
    DayOfYear(doe, yoe);
    mp := (5 * doy + 2) / 153;
  }

  /** `DaysFromCivil` of a date given by its era, year of era and month
      and day of the March-based year. */
  lemma FromCivilParts(y: int, m: int, d: int, era: int, yoe: int, mp: int, doy: int)
    requires 0 <= yoe < 400 && 0 <= mp <= 11
    requires m == (if mp < 10 then mp + 3 else mp - 9)
    requires y == (if m <= 2 then yoe + era * 400 + 1 else yoe + era * 400)
    requires d == doy - (153 * mp + 2) / 5 + 1
    ensures DaysFromCivil(y, m, d) == era * 146097 + yoe * 365 + yoe / 4 - yoe / 100 + doy - 719468
  {
    DivMod400(yoe + era * 400, era, yoe);
    assert (if m > 2 then m - 3 else m + 9) == mp;
  }

  /** The date named is the day the time value falls on: converting it
      back gives the same day count. */
  lemma CivilRoundTrip(z: int)
    ensures var r := CivilFromDays(z); DaysFromCivil(r.0, r.1, r.2) == z
  {
    var era, yoe, mp, doy, y, m, d := CivilParts(z);
    FromCivilParts(y, m, d, era, yoe, mp, doy);
  }

  /** The intermediate values of `CivilFromDays`. */
  lemma CivilParts(z: int) returns (era: int, yoe: int, mp: int, doy: int, y: int, m: int, d: int)
    ensures CivilFromDays(z) == (y, m, d)
    ensures 0 <= yoe < 400 && 0 <= mp <= 11
    ensures m == (if mp < 10 then mp + 3 else mp - 9)
    ensures y == (if m <= 2 then yoe + era * 400 + 1 else yoe + era * 400)
    ensures d == doy - (153 * mp + 2) / 5 + 1
    ensures z == era * 146097 + yoe * 365 + yoe / 4 - yoe / 100 + doy - 719468
  {
    var zz := z + 719468;
    era := zz / 146097;
    var doe := zz % 146097;
    yoe, doy, mp := EraParts(doe);
    d := doy - (153 * mp + 2) / 5 + 1;
    m := if mp < 10 then mp + 3 else mp - 9;
    y := if m <= 2 then yoe + era * 400 + 1 else yoe + era * 400;
  }

  lemma EraParts(doe: int) returns (yoe: int, doy: int, mp: int)
    requires 0 <= doe < 146097
    ensures 0 <= yoe < 400 && 0 <= mp <= 11
    ensures EraDate(doe) == (yoe, if mp < 10 then mp + 3 else mp - 9, doy - (153 * mp + 2) / 5 + 1)
    ensures doe == yoe * 365 + yoe / 4 - yoe / 100 + doy
  {
    yoe, doy, mp := EraBounds(doe);
  }

  /** `getUTCDay()`: 1970-01-01 was a Thursday. */
  function WeekDay(days: int): (r: nat)
    ensures r < 7
  {
    (days + 4) % 7
  }

  /** `formatHindiDate(iso)`, given the time value `Date` parses from the
      text (`None` for an unparsable one). */
  function FormatHindiDate(time: Option<int>): (r: string)
    ensures r == "" <==> time.None? || time.value < -MaxTime || time.value > MaxTime
  {
    if time.None? || time.value < -MaxTime || time.value > MaxTime then ""
    else
      var days := time.value / MsPerDay;
      var date := CivilFromDays(days);
      Days[WeekDay(days)] + ", " + PadTwo(date.2) + " " + Months[date.1 - 1] + " " + IntToString(date.0)
  }

  /** 2025-09-05T10:30:00Z is "शुक्रवार, 05 सितंबर 2025". */
  lemma FormatExample()
    ensures FormatHindiDate(Some(1757068200000)) == "शुक्रवार" + ", " + "05" + " " + "सितंबर" + " " + "2025"
  {
    assert 1757068200000 / MsPerDay == 20336;
    assert WeekDay(20336) == 5;
    assert 739804 / 146097 == 5 && 739804 % 146097 == 9319;
    assert (9319 - 9319 / 1460 + 9319 / 36524 - 9319 / 146096) / 365 == 25;
    assert 9319 - (365 * 25 + 25 / 4 - 25 / 100) == 188;
    assert (5 * 188 + 2) / 153 == 6;
    assert 188 - (153 * 6 + 2) / 5 + 1 == 5;
    assert CivilFromDays(20336) == (2025, 9, 5);
    assert PadTwo(5) == "05";
    assert NatToString(2025) == "2025" by {
      assert NatToString(2) == "2";
      assert NatToString(20) == "20";
      assert NatToString(202) == "202";
    }
  }

  /* ------------------------------------------- the "में" heuristic */

  /** \p{L}, for the scripts a post uses: ASCII and Devanagari letters. */
  predicate IsLetter(c: char)
  {
    ('a' <= c <= 'z') || ('A' <= c <= 'Z')
    || ('\U{0904}' <= c <= '\U{0939}') || c == '\U{093D}' || c == '\U{0950}'
    || ('\U{0958}' <= c <= '\U{0961}') || ('\U{0971}' <= c <= '\U{097F}')
  }

  /** \p{M} for the same scripts: the combining diacritics and the
      Devanagari signs, matras, nukta and virama. */
  predicate IsMark(c: char)
  {
    ('\U{0300}' <= c <= '\U{036F}')
    || ('\U{0900}' <= c <= '\U{0903}') || ('\U{093A}' <= c <= '\U{093C}')
    || ('\U{093E}' <= c <= '\U{094F}') || ('\U{0951}' <= c <= '\U{0957}')
    || ('\U{0962}' <= c <= '\U{0963}')
  }

  /** The group's class: `[\p{L} ]` as written (`marks` false), or
      `[\p{L}\p{M} ]` (`marks` true). */
  predicate InGroup(c: char, marks: bool)
  {
    c == ' ' || IsLetter(c) || (marks && IsMark(c))
  }

  const Mein: string := "में"

  /** `\s+में` matches at `q`. */
  predicate MeinAfterSpace(s: string, q: nat)
    requires q <= |s|
  {
    q < |s| && IsJsSpace(s[q]) && StartsWith(s[SkipJsSpace(s, q)..], Mein)
  }

  /** The lazy group `(…{2,}?)` starting at `p`, grown to `q` so far: the
      first end at least two past `p` where `\s+में` follows. */
  function GroupEnd(s: string, p: nat, q: nat, marks: bool): (r: Option<nat>)
    requires p <= q <= |s|
    ensures r.Some? ==> q <= r.value <= |s| && p + 2 <= r.value && MeinAfterSpace(s, r.value)
    decreases |s| - q
  {
    if q - p >= 2 && MeinAfterSpace(s, q) then Some(q)
    else if q < |s| && InGroup(s[q], marks) then GroupEnd(s, p, q + 1, marks)
    else None
  }

  /** The groups of `content.matchAll(/([\p{L} ]{2,}?)\s+में/gu)`: each
      match resumes the scan after "में". */
  function InGroupsFrom(s: string, i: nat, marks: bool): seq<string>
    requires i <= |s|
    decreases |s| - i
  {
    if i == |s| then []
    else
      match GroupEnd(s, i, i, marks)
      case Some(q) => [s[i..q]] + InGroupsFrom(s, SkipJsSpace(s, q) + |Mein|, marks)
      case None => InGroupsFrom(s, i + 1, marks)
  }

  predicate AllNonEmpty(alts: seq<string>)
  {
    forall a :: a in alts ==> |a| > 0
  }

  /** The first match of `alts` in the trimmed group, when that is at least
      two characters long. */
  function KnownIn(group: string, alts: seq<string>): Option<string>
    requires AllNonEmpty(alts)
  {
    var token := JsTrim(group);
    var found := AltMatchesFrom(token, 0, alts);
    if |token| >= 2 && |found| > 0 then Some(found[0]) else None
  }

  /** What the heuristic adds for the groups, in order. */
  function HeuristicIn(groups: seq<string>, alts: seq<string>): seq<string>
    requires AllNonEmpty(alts)
    decreases |groups|
  {
    if groups == [] then []
    else
      HeuristicIn(groups[..|groups| - 1], alts)
      + match KnownIn(groups[|groups| - 1], alts) case Some(k) => [k] case None => []
  }

  function HeuristicPlaces(groups: seq<string>): seq<string>
  {
    PlacesNonEmpty();
    HeuristicIn(groups, Places)
  }

  /** The places `parsePost` reports: the direct matches, then what the
      heuristic adds, each once. */
  function Where(content: string, marks: bool): seq<string>
  {
    AddAll(Distinct(PlaceMatches(content)), HeuristicPlaces(InGroupsFrom(content, 0, marks)))
  }

  lemma {:induction false} GroupEndInClass(s: string, p: nat, q: nat, marks: bool)
    requires p <= q <= |s|
    requires forall k :: p <= k < q ==> InGroup(s[k], marks)
    ensures GroupEnd(s, p, q, marks).Some? ==>
      forall k :: p <= k < GroupEnd(s, p, q, marks).value ==> InGroup(s[k], marks)
    decreases |s| - q
  {
    if !(q - p >= 2 && MeinAfterSpace(s, q)) && q < |s| && InGroup(s[q], marks) {
      GroupEndInClass(s, p, q + 1, marks);
    }
  }

  lemma SliceInClass(s: string, i: nat, q: nat, marks: bool)
    requires i <= q <= |s|
    requires forall k :: i <= k < q ==> InGroup(s[k], marks)
    ensures forall k :: 0 <= k < |s[i..q]| ==> InGroup(s[i..q][k], marks)
  {
    forall k | 0 <= k < |s[i..q]|
      ensures InGroup(s[i..q][k], marks)
    {
      assert s[i..q][k] == s[i + k];
    }
  }

  /** Every group is made of characters of the class. */
  lemma {:induction false} InGroupsFromClass(s: string, i: nat, marks: bool)
    requires i <= |s|
    ensures forall g, k :: g in InGroupsFrom(s, i, marks) && 0 <= k < |g| ==> InGroup(g[k], marks)
    decreases |s| - i
  {
    if i < |s| {
      GroupEndInClass(s, i, i, marks);
      match GroupEnd(s, i, i, marks)
      case Some(q) =>
        InGroupsFromClass(s, SkipJsSpace(s, q) + |Mein|, marks);
        SliceInClass(s, i, q, marks);
      case None =>
        InGroupsFromClass(s, i + 1, marks);
    }
  }

  /** Every place alternative holds a mark. */
  predicate HasMark(a: string)
  {
    exists j :: 0 <= j < |a| && IsMark(a[j])
  }

  lemma PlaceHasMark(i: int)
    requires 0 <= i < |Places|
    ensures HasMark(Places[i])
  {
    if i == 0 {
      assert IsMark(Places[i][4]);
    } else if i == 1 {
      assert IsMark(Places[i][2]);
    } else if i == 2 {
      assert IsMark(Places[i][1]);
    } else if i == 3 {
      assert IsMark(Places[i][1]);
    } else if i == 4 {
      assert IsMark(Places[i][1]);
    } else if i == 5 {
      assert IsMark(Places[i][1]);
    } else if i == 6 {
      assert IsMark(Places[i][2]);
    } else if i == 7 {
      assert IsMark(Places[i][3]);
    } else if i == 8 {
      assert IsMark(Places[i][2]);
    } else if i == 9 {
      assert IsMark(Places[i][2]);
    } else if i == 10 {
      assert IsMark(Places[i][3]);
    } else if i == 11 {
      assert IsMark(Places[i][3]);
    } else {
      assert IsMark(Places[i][2]);
    }
  }

  lemma PlacesHaveMarks(a: string)
    requires a in Places
    ensures HasMark(a)
  {
    var i :| 0 <= i < |Places| && Places[i] == a;
    PlaceHasMark(i);
  }

  /** A text of letters and spaces holds none of the alternatives when each
      of them holds a mark. */
  lemma NoAltInLetters(t: string, alts: seq<string>)
    requires AllNonEmpty(alts) && forall a :: a in alts ==> HasMark(a)
    requires forall k :: 0 <= k < |t| ==> InGroup(t[k], false)
    ensures AltMatchesFrom(t, 0, alts) == []
  {
    forall k, a | 0 <= k < |t| && a in alts
      ensures !StartsWith(t[k..], a)
    {
      var j :| 0 <= j < |a| && IsMark(a[j]);
      assert !InGroup(a[j], false);
    }
    AltMatchesFromNone(t, 0, alts);
  }

  lemma TrimInClass(g: string)
    requires forall k :: 0 <= k < |g| ==> InGroup(g[k], false)
    ensures forall k :: 0 <= k < |JsTrim(g)| ==> InGroup(JsTrim(g)[k], false)
  {
    var i, j := JsTrimSlice(g);
    assert forall k :: 0 <= k < |JsTrim(g)| ==> JsTrim(g)[k] == g[i + k];
  }

  lemma {:induction false} HeuristicInEmpty(groups: seq<string>, alts: seq<string>)
    requires AllNonEmpty(alts) && forall a :: a in alts ==> HasMark(a)
    requires forall g, k :: g in groups && 0 <= k < |g| ==> InGroup(g[k], false)
    ensures HeuristicIn(groups, alts) == []
    decreases |groups|
  {
    if groups != [] {
      var g := groups[|groups| - 1];
      HeuristicInEmpty(groups[..|groups| - 1], alts);
      TrimInClass(g);
      NoAltInLetters(JsTrim(g), alts);
    }
  }

  /** As written, the heuristic never adds a place: every place name holds
      a matra, virama or nukta, none of which `\p{L}` matches. */
  lemma HeuristicNeverFires(content: string)
    ensures HeuristicPlaces(InGroupsFrom(content, 0, false)) == []
    ensures Where(content, false) == Distinct(PlaceMatches(content))
  {
    InGroupsFromClass(content, 0, false);
    forall a | a in Places
      ensures HasMark(a)
    {
      PlacesHaveMarks(a);
    }
    PlacesNonEmpty();
    HeuristicInEmpty(InGroupsFrom(content, 0, false), Places);
  }

  /** A run of group characters with no white space, ending where `\s+में`
      follows at least two past `p`, is where the lazy group ends. */
  lemma {:induction false} GroupRuns(s: string, p: nat, q: nat, e: nat, marks: bool)
    requires p <= q <= e <= |s| && p + 2 <= e && MeinAfterSpace(s, e)
    requires forall j :: q <= j < e ==> InGroup(s[j], marks) && !IsJsSpace(s[j])
    ensures GroupEnd(s, p, q, marks) == Some(e)
    decreases e - q
  {
    if q < e {
      GroupRuns(s, p, q + 1, e, marks);
    }
  }

  /** "रायगढ़ में" has the one group "रायगढ़" once marks are in the class. */
  lemma RaigarhGroup()
    ensures InGroupsFrom(Places[2] + " " + Mein, 0, true) == [Places[2]]
  {
    var g := Places[2];
    var s := g + " " + Mein;
    assert |g| == 6 && |s| == 10;
    assert s[6] == ' ' && s[7..] == Mein;
    assert SkipJsSpace(s, 6) == 7;
    assert MeinAfterSpace(s, 6);
    forall j | 0 <= j < 6
      ensures InGroup(s[j], true) && !IsJsSpace(s[j])
    {
      assert s[j] == g[j];
    }
    GroupRuns(s, 0, 0, 6, true);
    assert s[0..6] == g;
    assert InGroupsFrom(s, 10, true) == [];
  }

  /** A trimmed text that the first alternative to match covers whole
      matches once, and is a known place as a group of its own. */
  lemma WholeMatch(t: string, alts: seq<string>)
    requires AllNonEmpty(alts) && FirstAlt(t, alts) == Some(t)
    requires |t| >= 2 && JsTrim(t) == t
    ensures AltMatchesFrom(t, 0, alts) == [t]
    ensures KnownIn(t, alts) == Some(t)
  {
    assert t[0..] == t;
    assert AltMatchesFrom(t, |t|, alts) == [];
  }

  lemma RaigarhFirst()
    ensures FirstAlt(Places[2], Places) == Some(Places[2])
  {
    var t := Places[2];
    assert !StartsWith(t, Places[0]) by { assert t[0] != Places[0][0]; }
    assert !StartsWith(t, Places[1]) by { assert t[0] != Places[1][0]; }
    assert Places[1..][1..][0] == t;
  }

  lemma RaigarhTrimmed()
    ensures |Places[2]| >= 2 && JsTrim(Places[2]) == Places[2]
  {
    var t := Places[2];
    assert !IsJsSpace(t[0]) && !IsJsSpace(t[|t| - 1]);
    JsTrimUnspaced(t);
  }

  lemma RaigarhKnown()
    ensures PlaceMatches(Places[2]) == [Places[2]]
    ensures KnownIn(Places[2], Places) == Some(Places[2])
  {
    RaigarhTrimmed();
    PlacesNonEmpty();
    RaigarhFirst();
    WholeMatch(Places[2], Places);
  }

  /** With marks in the class, "रायगढ़ में" yields the place before "में". */
  lemma HeuristicFindsRaigarh()
    ensures HeuristicPlaces(InGroupsFrom(Places[2] + " " + Mein, 0, true)) == [Places[2]]
  {
    var g := Places[2];
    RaigarhGroup();
    RaigarhKnown();
    PlacesNonEmpty();
    HeuristicInSnoc([], Places, g);
    assert [] + [g] == [g];
    assert HeuristicIn([g], Places) == [g];
  }

  /* --------------------------------------------------------- keywords */

  const Nouns: seq<string> := ["किसान", "सड़क", "शिविर", "महिला", "स्टार्टअप"]

  /** ``#${k}`` for each keyword. */
  function Prefixed(ks: seq<string>): (r: seq<string>)
    ensures |r| == |ks| && forall i :: 0 <= i < |ks| ==> r[i] == "#" + ks[i]
  {
    seq(|ks|, i requires 0 <= i < |ks| => "#" + ks[i])
  }

  /** The hashtags `parsePost` reports: the distinct matches, then one per
      contained action keyword and per contained noun keyword. */
  function Hashtags(content: string): seq<string>
  {
    AddAll(AddAll(Distinct(HashtagMatches(content)), Prefixed(Mentioned(Actions, content))),
           Prefixed(Mentioned(Nouns, content)))
  }

  /** A keyword loop of `parsePost`: each contained keyword is collected and
      added to the hashtag set with a `#`. */
  method TagKeywords(keywords: seq<string>, content: string, tags0: seq<string>)
    returns (found: seq<string>, tags: seq<string>)
    ensures found == Mentioned(keywords, content)
    ensures tags == AddAll(tags0, Prefixed(found))
  {
    found, tags := [], tags0;
    for i := 0 to |keywords|
      invariant found == Mentioned(keywords[..i], content)
      invariant tags == AddAll(tags0, Prefixed(found))
    {
      assert keywords[..i + 1][..i] == keywords[..i];
      var k := keywords[i];
      if Contains(content, k) {
        assert Prefixed(found + [k]) == Prefixed(found) + ["#" + k];
        AddAllSnoc(tags0, Prefixed(found), "#" + k);
        found := found + [k];
        tags := Add(tags, "#" + k);
      }
    }
    assert keywords[..|keywords|] == keywords;
  }

  lemma HeuristicInSnoc(groups: seq<string>, alts: seq<string>, g: string)
    requires AllNonEmpty(alts)
    ensures KnownIn(g, alts).Some? ==> HeuristicIn(groups + [g], alts) == HeuristicIn(groups, alts) + [KnownIn(g, alts).value]
    ensures KnownIn(g, alts).None? ==> HeuristicIn(groups + [g], alts) == HeuristicIn(groups, alts)
  {
    assert (groups + [g])[..|groups|] == groups;
  }

  /** The loop over the heuristic's groups. */
  method AddKnown(where0: seq<string>, groups: seq<string>, alts: seq<string>) returns (where: seq<string>)
    requires AllNonEmpty(alts)
    ensures where == AddAll(where0, HeuristicIn(groups, alts))
  {
    where := where0;
    for i := 0 to |groups|
      invariant where == AddAll(where0, HeuristicIn(groups[..i], alts))
    {
      var g := groups[i];
      ghost var seen := HeuristicIn(groups[..i], alts);
      assert groups[..i + 1] == groups[..i] + [g];
      HeuristicInSnoc(groups[..i], alts, g);
      var token := JsTrim(g);
      if |token| >= 2 {
        var found := AltMatchesFrom(token, 0, alts);
        if |found| > 0 {
          assert KnownIn(g, alts) == Some(found[0]);
          AddAllSnoc(where0, seen, found[0]);
          where := Add(where, found[0]);
        } else {
          assert KnownIn(g, alts) == None;
        }
      } else {
        assert KnownIn(g, alts) == None;
      }
    }
    assert groups[..|groups|] == groups;
  }

  /* ------------------------------------------------------------ posts */

  datatype Parsed = Parsed(
    when: string,
    where: seq<string>,
    what: seq<string>,
    mentions: seq<string>,
    hashtags: seq<string>,
    how: string)

  /** `parsePost(post)`; `time` is what `new Date(post.timestamp)` parses.
      With `marks` false the heuristic uses the class as written, so the
      places are the regex matches alone; with `marks` true it uses the
      corrected class that also takes combining marks. */
  method ParsePost(content: string, time: Option<int>, marks: bool) returns (post: Parsed)
    ensures post.when == FormatHindiDate(time)
    ensures post.where == Where(content, marks)
    ensures !marks ==> post.where == Distinct(PlaceMatches(content))
    ensures post.what == Mentioned(Actions, content)
    ensures post.mentions == Distinct(MentionMatches(content))
    ensures post.hashtags == Hashtags(content)
    ensures |post.how| == (if |JsTrim(content)| < 180 then |JsTrim(content)| else 180)
    ensures post.how <= JsTrim(content)
  {
    var when := FormatHindiDate(time);
    var whereSet := AddEach([], PlaceMatches(content));
    PlacesNonEmpty();
    whereSet := AddKnown(whereSet, InGroupsFrom(content, 0, marks), Places);
    if !marks {
      HeuristicNeverFires(content);
    }
    var hashtagsSet := Distinct(HashtagMatches(content));
    var mentions := Distinct(MentionMatches(content));
    var what, nounTags;
    what, hashtagsSet := TagKeywords(Actions, content, hashtagsSet);
    nounTags, hashtagsSet := TagKeywords(Nouns, content, hashtagsSet);
    var how := Take(JsTrim(content), 180);
    post := Parsed(when, whereSet, what, mentions, hashtagsSet, how);
  }

  /** Where holds known places only, each once. */
  lemma {:induction false} HeuristicInKnown(groups: seq<string>, alts: seq<string>)
    requires AllNonEmpty(alts)
    ensures forall p :: p in HeuristicIn(groups, alts) ==> p in alts
    decreases |groups|
  {
    if groups != [] {
      HeuristicInKnown(groups[..|groups| - 1], alts);
      AltMatchesFromSound(JsTrim(groups[|groups| - 1]), 0, alts);
    }
  }

  lemma WhereSound(content: string, marks: bool)
    ensures NoDup(Where(content, marks))
    ensures forall p :: p in Where(content, marks) ==> p in Places && (p in PlaceMatches(content) || p in HeuristicPlaces(InGroupsFrom(content, 0, marks)))
  {
    PlaceMatchesSound(content);
    PlacesNonEmpty();
    HeuristicInKnown(InGroupsFrom(content, 0, marks), Places);
  }

  /** A keyword in the list yields its hashtag. */
  lemma PrefixedHas(ks: seq<string>, k: string)
    requires k in ks
    ensures "#" + k in Prefixed(ks)
  {
    var i :| 0 <= i < |ks| && ks[i] == k;
    assert Prefixed(ks)[i] == "#" + k;
  }

  /** Every hashtag written in the text is reported, and so is `#` with each
      keyword the text contains. */
  lemma HashtagsComplete(content: string)
    ensures forall h :: h in HashtagMatches(content) ==> h in Hashtags(content)
    ensures forall k :: (k in Actions || k in Nouns) && Contains(content, k) ==> "#" + k in Hashtags(content)
  {
    MentionedSpec(Actions, content);
    MentionedSpec(Nouns, content);
    forall k | (k in Actions || k in Nouns) && Contains(content, k)
      ensures "#" + k in Hashtags(content)
    {
      if k in Actions {
        PrefixedHas(Mentioned(Actions, content), k);
      } else {
        PrefixedHas(Mentioned(Nouns, content), k);
      }
    }
  }

  /** Each hashtag was written in the text, or is `#` and a keyword the text
      contains; none is repeated. */
  lemma HashtagsSound(content: string)
    ensures NoDup(Hashtags(content))
    ensures forall h :: h in Hashtags(content) ==>
      h in HashtagMatches(content)
      || exists k :: (k in Actions || k in Nouns) && Contains(content, k) && h == "#" + k
  {
    MentionedSpec(Actions, content);
    MentionedSpec(Nouns, content);
    forall h | h in Hashtags(content) && h !in HashtagMatches(content)
      ensures exists k :: (k in Actions || k in Nouns) && Contains(content, k) && h == "#" + k
    {
      if h in Prefixed(Mentioned(Actions, content)) {
        var i :| 0 <= i < |Mentioned(Actions, content)| && Prefixed(Mentioned(Actions, content))[i] == h;
        assert Mentioned(Actions, content)[i] in Mentioned(Actions, content);
      } else {
        assert h in Prefixed(Mentioned(Nouns, content));
        var i :| 0 <= i < |Mentioned(Nouns, content)| && Prefixed(Mentioned(Nouns, content))[i] == h;
        assert Mentioned(Nouns, content)[i] in Mentioned(Nouns, content);
      }
    }
  }
}
