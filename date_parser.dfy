/**
 * The free-form period parser `DateParser.parse_period` of date_parser.py:
 * a Russian phrase and the current date go in, and out come a start and an
 * end date formatted `YYYY-MM-DD` with an explanation, or no dates with an
 * explanation, or an exception that escapes the parser.
 *
 * Each regular expression of the source is modelled by a matcher that says,
 * for one start index, whether the pattern matches there and what its groups
 * capture, plus a search for the leftmost such index, which is what
 * `re.search` returns. The greedy quantifiers in these patterns never need to
 * give characters back, so each matcher is deterministic.
 */
module DateParser {
  import opened Optional
  import opened Text
  import opened Calendar

  /** `DateParser.MONTHS_RU`: month names, genitive forms and abbreviations. */
  const MONTHS_RU: map<string, int> := map[
    "январь" := 1, "января" := 1, "янв" := 1,
    "февраль" := 2, "февраля" := 2, "фев" := 2,
    "март" := 3, "марта" := 3, "мар" := 3,
    "апрель" := 4, "апреля" := 4, "апр" := 4,
    "май" := 5, "мая" := 5,
    "июнь" := 6, "июня" := 6, "июн" := 6,
    "июль" := 7, "июля" := 7, "июл" := 7,
    "август" := 8, "августа" := 8, "авг" := 8,
    "сентябрь" := 9, "сентября" := 9, "сен" := 9, "сент" := 9,
    "октябрь" := 10, "октября" := 10, "окт" := 10,
    "ноябрь" := 11, "ноября" := 11, "ноя" := 11,
    "декабрь" := 12, "декабря" := 12, "дек" := 12
  ]

  /** The `quarter_numbers` table of `_parse_specific_quarter`. */
  const QUARTER_NUMBERS: map<string, int> := map[
    "1" := 1, "2" := 2, "3" := 3, "4" := 4,
    "1-й" := 1, "2-й" := 2, "3-й" := 3, "4-й" := 4,
    "i" := 1, "ii" := 2, "iii" := 3, "iv" := 4,
    "первый" := 1, "второй" := 2, "третий" := 3, "четвертый" := 4,
    "первого" := 1, "второго" := 2, "третьего" := 3, "четвертого" := 4
  ]

  /** The words the normalisation removes: `за|в|на|с|по|до|период|времени?|отчет|отчёт`. */
  const STOPWORDS: set<string> := {"за", "в", "на", "с", "по", "до", "период", "времен", "времени", "отчет", "отчёт"}

  lemma TablesInRange()
    ensures forall k | k in MONTHS_RU :: 1 <= MONTHS_RU[k] <= 12
    ensures forall k | k in QUARTER_NUMBERS :: 1 <= QUARTER_NUMBERS[k] <= 4
  {
  }

  /** The fixed phrases of `special_periods`, in the order they are tried. */
  datatype Keyword =
    | Today | Yesterday | DayBeforeYesterday | ThisWeek | LastWeek
    | ThisMonth | LastMonth | ThisQuarter | LastQuarter | ThisYear | LastYear

  const SPECIAL_ORDER: seq<Keyword> :=
    [Today, Yesterday, DayBeforeYesterday, ThisWeek, LastWeek,
     ThisMonth, LastMonth, ThisQuarter, LastQuarter, ThisYear, LastYear]

  datatype Unit = Days | Weeks | Months

  /** The exceptions that can escape `parse_period`. */
  datatype PyError =
    | ValueError     // `datetime(...)` or `replace(...)` with year 0 or 10000
    | OverflowError  // `timedelta` arithmetic leaving 0001-01-01..9999-12-31

  /** What the explanation string reports. */
  datatype Note =
    | Silent                                  // the empty explanation of a recogniser that did not match
    | Unrecognised(text: string)              // "Не удалось распознать период: '<text>'"
    | NoStandardDates                         // "Не найдены корректные даты в стандартном формате"
    | InvalidDates(startDay: string, startMonth: string, endDay: string, endMonth: string)
    | OneDay                                  // "(один день)"
    | StandardRange(swapped: bool)            // swapped: "(даты переставлены)"
    | Special(keyword: Keyword)
    | MonthRangeOf(startMonth: string, year: int, endMonth: string, endYear: int)
    | MonthOf(name: string, year: int)
    | QuarterOf(quarter: int, year: int)
    | LastCount(unit: Unit, count: nat)
    | ConcreteRange(startDay: string, startMonth: string, startYear: int, endDay: string, endMonth: string, endYear: int)

  /** The `(start, end, explanation)` triple, or the exception raised instead. */
  datatype Outcome =
    | Dates(start: string, end: string, note: Note)
    | NoDates(note: Note)
    | Raised(error: PyError)

  datatype Span = Span(start: Date, end: Date)

  predicate ValidSpan(sp: Span) {
    Valid(sp.start) && Valid(sp.end)
  }

  /** Format a computed span, or report the exception raised while computing it. */
  function FromSpan(span: Option<Span>, note: Note, error: PyError): Outcome
    requires span.Some? ==> ValidSpan(span.value)
  {
    match span
    case Some(sp) => Dates(Iso(sp.start), Iso(sp.end), note)
    case None => Raised(error)
  }

  /**
   * `re.search` for a pattern whose matcher at each index is `m`: the match
   * at the least index of `i..n` that has one.
   */
  function Leftmost<T>(m: nat -> Option<T>, i: nat, n: nat): (r: Option<T>)
    requires i <= n
    decreases n - i
  {
    if i == n then None
    else if m(i).Some? then m(i)
    else Leftmost(m, i + 1, n)
  }

  /** The match `Leftmost` returns is at the least index that has one; none means no index has one. */
  lemma {:induction false} LeftmostFirst<T>(m: nat -> Option<T>, i: nat, n: nat)
    requires i <= n
    ensures var r := Leftmost(m, i, n);
      r.Some? ==> exists j | i <= j < n :: r == m(j) && forall k | i <= k < j :: m(k).None?
    ensures Leftmost(m, i, n).None? ==> forall j | i <= j < n :: m(j).None?
    decreases n - i
  {
    if i < n && m(i).None? {
      LeftmostFirst(m, i + 1, n);
    }
  }

  // ---------------------------------------------------------------------
  // Normalisation
  // ---------------------------------------------------------------------

  /** A word (maximal run of `\w`) starts at `i`. */
  predicate WordStart(s: string, i: nat) {
    i < |s| && IsWordChar(s[i]) && (i == 0 || !IsWordChar(s[i - 1]))
  }

  /**
   * `re.sub(r'\b(за|в|...|отчёт)\b', '', s)` from index `i` on: every
   * alternative is made of word characters and is framed by `\b`, so a match
   * is exactly a whole word that is a stopword, and it is dropped.
   */
  function DropStopwords(s: string, i: nat): string
    requires i <= |s|
    decreases |s| - i
  {
    if i == |s| then []
    else if WordStart(s, i) && s[i..WordEnd(s, i)] in STOPWORDS then DropStopwords(s, WordEnd(s, i))
    else [s[i]] + DropStopwords(s, i + 1)
  }

  /** Lines 53-56: lower-case, strip, drop stopwords, strip again. */
  function Normalise(text: string): (r: string)
    ensures r != [] ==> !IsSpace(r[0]) && !IsSpace(r[|r| - 1])
  {
    var t := Strip(LowerStr(text));
    Strip(DropStopwords(t, 0))
  }

  /** A text in which no stopword stands as a whole word is left as it is. */
  lemma {:induction false} DropStopwordsKeepsPlainText(s: string, i: nat)
    requires i <= |s|
    requires forall k | i <= k < |s| :: !(WordStart(s, k) && s[k..WordEnd(s, k)] in STOPWORDS)
    ensures DropStopwords(s, i) == s[i..]
    decreases |s| - i
  {
    if i < |s| {
      DropStopwordsKeepsPlainText(s, i + 1);
      assert s[i..] == [s[i]] + s[i + 1..];
    }
  }

  /** No whole word of `r` is one of `words`. */
  predicate NoWordIn(r: string, words: set<string>) {
    forall k | 0 <= k < |r| && WordStart(r, k) :: r[k..WordEnd(r, k)] !in words
  }

  /**
   * Lines 53-56 as a whole: the normalised text is lower case, and no
   * stopword is left standing as a whole word in it.
   */
  lemma NormaliseDropsStopwords(text: string)
    ensures NoWordIn(Normalise(text), STOPWORDS)
    ensures IsLowered(Normalise(text))
  {
    var t := Strip(LowerStr(text));
    LowerStrLowered(text);
    StripLowered(LowerStr(text));
    DropStopwordsLowered(t, 0);
    StripLowered(DropStopwords(t, 0));
    DropStopwordsNoStopword(t, 0);
    StripKeepsNoWordIn(DropStopwords(t, 0), STOPWORDS);
  }

  /** Removing words never introduces an upper-case character. */
  lemma {:induction false} DropStopwordsLowered(s: string, i: nat)
    requires i <= |s| && IsLowered(s)
    ensures IsLowered(DropStopwords(s, i))
    decreases |s| - i
  {
    if i < |s| {
      if WordStart(s, i) && s[i..WordEnd(s, i)] in STOPWORDS {
        DropStopwordsLowered(s, WordEnd(s, i));
      } else {
        DropStopwordsLowered(s, i + 1);
      }
    }
  }

  /**
   * From an index that is not inside a word, no stopword stands as a whole
   * word in what `DropStopwords` leaves: a dropped word is a maximal run of
   * `\w` framed by non-word characters, so its neighbours never join.
   */
  lemma {:induction false} DropStopwordsNoStopword(s: string, i: nat)
    requires i <= |s|
    requires i == |s| || !IsWordChar(s[i]) || WordStart(s, i)
    ensures NoWordIn(DropStopwords(s, i), STOPWORDS)
    decreases |s| - i
  {
    if i < |s| {
      if !IsWordChar(s[i]) {
        DropStopwordsNoStopword(s, i + 1);
        DropNonWordStep(s, i);
      } else {
        DropStopwordsNoStopword(s, WordEnd(s, i));
        if s[i..WordEnd(s, i)] !in STOPWORDS {
          DropKeptWordStep(s, i);
        }
      }
    }
  }

  /** A non-word character is copied, and adds no word. */
  lemma DropNonWordStep(s: string, i: nat)
    requires i < |s| && !IsWordChar(s[i])
    requires NoWordIn(DropStopwords(s, i + 1), STOPWORDS)
    ensures NoWordIn(DropStopwords(s, i), STOPWORDS)
  {
    PrependNonWord(s[i], DropStopwords(s, i + 1), STOPWORDS);
  }

  /** A word that is not a stopword is copied whole, and is the only word it adds. */
  lemma DropKeptWordStep(s: string, i: nat)
    requires WordStart(s, i) && s[i..WordEnd(s, i)] !in STOPWORDS
    requires NoWordIn(DropStopwords(s, WordEnd(s, i)), STOPWORDS)
    ensures NoWordIn(DropStopwords(s, i), STOPWORDS)
  {
    var e := WordEnd(s, i);
    DropKeptWord(s, i);
    DropAfterWord(s, e);
    PrependWord(s[i..e], DropStopwords(s, e), STOPWORDS);
  }

  /** At a word that is not a stopword, the whole word is copied. */
  lemma DropKeptWord(s: string, i: nat)
    requires WordStart(s, i) && s[i..WordEnd(s, i)] !in STOPWORDS
    ensures DropStopwords(s, i) == s[i..WordEnd(s, i)] + DropStopwords(s, WordEnd(s, i))
  {
    DropCopiesChar(s, i);
    WordEndStep(s, i);
    DropWordRest(s, i + 1);
    ConsSlice(s, i, WordEnd(s, i), DropStopwords(s, WordEnd(s, i)));
  }

  /** `[s[i]] + (s[i + 1..e] + t)` is `s[i..e] + t`. */
  lemma ConsSlice(s: string, i: nat, e: nat, t: string)
    requires i < e <= |s|
    ensures [s[i]] + (s[i + 1..e] + t) == s[i..e] + t
  {
    assert s[i..e] == [s[i]] + s[i + 1..e];
  }

  /** Where no stopword starts, `DropStopwords` copies the character. */
  lemma DropCopiesChar(s: string, i: nat)
    requires i < |s| && !(WordStart(s, i) && s[i..WordEnd(s, i)] in STOPWORDS)
    ensures DropStopwords(s, i) == [s[i]] + DropStopwords(s, i + 1)
  {
  }

  /** Right after a word, what is left starts with a non-word character, if anything. */
  lemma DropAfterWord(s: string, e: nat)
    requires e <= |s| && (e == |s| || !IsWordChar(s[e]))
    ensures DropStopwords(s, e) == [] || !IsWordChar(DropStopwords(s, e)[0])
  {
    if e < |s| {
      assert DropStopwords(s, e) == [s[e]] + DropStopwords(s, e + 1);
    }
  }

  /** Inside a word, `DropStopwords` copies the rest of that word. */
  lemma {:induction false} DropWordRest(s: string, i: nat)
    requires 0 < i <= |s| && IsWordChar(s[i - 1])
    ensures DropStopwords(s, i) == s[i..WordEnd(s, i)] + DropStopwords(s, WordEnd(s, i))
    decreases |s| - i
  {
    if i < |s| && IsWordChar(s[i]) {
      DropWordRest(s, i + 1);
      assert s[i..WordEnd(s, i)] == [s[i]] + s[i + 1..WordEnd(s, i)];
    }
  }

  /** A non-word character in front adds no word. */
  lemma PrependNonWord(c: char, x: string, words: set<string>)
    requires !IsWordChar(c) && NoWordIn(x, words)
    ensures NoWordIn([c] + x, words)
  {
    var y := [c] + x;
    forall k | 0 <= k < |y| && WordStart(y, k)
      ensures y[k..WordEnd(y, k)] !in words
    {
      assert WordStart(x, k - 1);
      WordEndUnique(y, k, WordEnd(x, k - 1) + 1);
      assert y[k..WordEnd(y, k)] == x[k - 1..WordEnd(x, k - 1)];
    }
  }

  /** A whole word in front, followed by a non-word character or nothing, adds just that word. */
  lemma PrependWord(w: string, x: string, words: set<string>)
    requires w != [] && w !in words && forall k | 0 <= k < |w| :: IsWordChar(w[k])
    requires x == [] || !IsWordChar(x[0])
    requires NoWordIn(x, words)
    ensures NoWordIn(w + x, words)
  {
    var y := w + x;
    forall k | 0 <= k < |y| && WordStart(y, k)
      ensures y[k..WordEnd(y, k)] !in words
    {
      if k == 0 {
        WordEndUnique(y, 0, |w|);
        assert y[0..|w|] == w;
      } else {
        assert k > |w| && WordStart(x, k - |w|);
        WordEndUnique(y, k, WordEnd(x, k - |w|) + |w|);
        assert y[k..WordEnd(y, k)] == x[k - |w|..WordEnd(x, k - |w|)];
      }
    }
  }

  /** `str.strip` removes only whitespace, so it leaves the words as they are. */
  lemma StripKeepsNoWordIn(x: string, words: set<string>)
    requires NoWordIn(x, words)
    ensures NoWordIn(Strip(x), words)
  {
    var y := Strip(x);
    var a, b :| StripsTo(x, a, b) && y == x[a..b];
    forall k | 0 <= k < |y| && WordStart(y, k)
      ensures y[k..WordEnd(y, k)] !in words
    {
      SliceWord(x, a, b, k);
    }
  }

  /** A word of the stripped slice `x[a..b]` is a word of `x`, letter for letter. */
  lemma SliceWord(x: string, a: nat, b: nat, k: nat)
    requires StripsTo(x, a, b) && k < b - a && WordStart(x[a..b], k)
    ensures WordStart(x, a + k)
    ensures x[a..b][k..WordEnd(x[a..b], k)] == x[a + k..WordEnd(x, a + k)]
  {
    SliceWordStart(x, a, b, k);
    SliceWordEnd(x, a, b, k);
    SliceOfSlice(x, a, b, k, WordEnd(x[a..b], k));
  }

  lemma SliceWordStart(x: string, a: nat, b: nat, k: nat)
    requires StripsTo(x, a, b) && k < b - a && WordStart(x[a..b], k)
    ensures WordStart(x, a + k)
  {
    if k == 0 && a > 0 {
      SpaceNotWord(x[a - 1]);
    } else if k > 0 {
      assert x[a + k - 1] == x[a..b][k - 1];
    }
  }

  lemma SliceWordEnd(x: string, a: nat, b: nat, k: nat)
    requires StripsTo(x, a, b) && k < b - a
    ensures WordEnd(x, a + k) == a + WordEnd(x[a..b], k)
  {
    var y := x[a..b];
    var e := WordEnd(y, k);
    assert forall j | k <= j < e :: x[a + j] == y[j];
    if e == |y| && b < |x| {
      SpaceNotWord(x[b]);
    } else if e < |y| {
      assert x[a + e] == y[e];
    }
    WordEndUnique(x, a + k, a + e);
  }

  // ---------------------------------------------------------------------
  // ISO dates
  // ---------------------------------------------------------------------

  /** `\d{4}-\d{2}-\d{2}` matches at index `i`. */
  predicate IsoAt(s: string, i: nat) {
    i + 10 <= |s| && DigitsAt(s, i, 4) && s[i + 4] == '-' && DigitsAt(s, i + 5, 2)
    && s[i + 7] == '-' && DigitsAt(s, i + 8, 2)
  }

  /** A string of the shape `\d{4}-\d{2}-\d{2}`. */
  predicate IsoShaped(d: string) {
    |d| == 10 && IsoAt(d, 0)
  }

  /** `_is_standard_date_format`. */
  predicate HasIsoDate(s: string) {
    exists i | 0 <= i <= |s| :: IsoAt(s, i)
  }

  /** `j` is the least index from `i` on where an ISO date starts. */
  predicate FirstIsoAt(s: string, i: nat, j: nat) {
    i <= j && IsoAt(s, j) && forall k | i <= k < j :: !IsoAt(s, k)
  }

  /** The index of the leftmost ISO date in `s` from `i` on, if any. */
  function FirstIso(s: string, i: nat): (r: Option<nat>)
    requires i <= |s|
    ensures r.Some? ==> FirstIsoAt(s, i, r.value)
    ensures r.None? ==> forall j | i <= j <= |s| :: !IsoAt(s, j)
  {
    var m: nat -> Option<nat> := (j: nat) => if j <= |s| && IsoAt(s, j) then Some(j) else None;
    assert forall j: nat | j <= |s| :: m(j).Some? <==> IsoAt(s, j);
    assert !IsoAt(s, |s|);
    var r := Leftmost(m, i, |s|);
    LeftmostFirst(m, i, |s|);
    assert r.Some? ==> r == Some(r.value) && IsoAt(s, r.value);
    r
  }

  /** `re.findall(r'\d{4}-\d{2}-\d{2}', s)` restricted to `s[i..]`: non-overlapping matches, left to right. */
  function FindIsoDates(s: string, i: nat): (r: seq<string>)
    requires i <= |s|
    ensures forall k | 0 <= k < |r| :: IsoShaped(r[k])
    ensures r != [] <==> exists j | i <= j <= |s| :: IsoAt(s, j)
    decreases |s| - i
  {
    if i + 10 > |s| then []
    else if IsoAt(s, i) then
      var d := s[i..i + 10];
      assert forall k | 0 <= k < 10 :: d[k] == s[i + k];
      assert IsoShaped(d);
      [d] + FindIsoDates(s, i + 10)
    else
      var r := FindIsoDates(s, i + 1);
      assert (exists j | i <= j <= |s| :: IsoAt(s, j)) ==> exists j | i + 1 <= j <= |s| :: IsoAt(s, j);
      r
  }

  /**
   * The scan is `findall`'s: no match when no ISO date starts from `i` on;
   * otherwise the first match is the leftmost ISO date, and the rest are
   * the matches from where it ends.
   */
  lemma {:induction false} FindIsoDatesLeftmost(s: string, i: nat)
    requires i <= |s|
    ensures FindIsoDates(s, i) == [] <==> FirstIso(s, i).None?
    ensures FirstIso(s, i).Some? ==> (var j := FirstIso(s, i).value;
      j + 10 <= |s| && FindIsoDates(s, i) == [s[j..j + 10]] + FindIsoDates(s, j + 10))
    decreases |s| - i
  {
    var f := FirstIso(s, i);
    if i + 10 > |s| {
      assert f.None?;
    } else if IsoAt(s, i) {
      assert f == Some(i);
    } else {
      FindIsoDatesLeftmost(s, i + 1);
      var g := FirstIso(s, i + 1);
      assert f == g;
    }
  }

  /**
   * `_parse_standard_dates` given the matches found: one date is a one-day
   * period; of two or more, the first two are put in string order.
   */
  function StandardDates(dates: seq<string>): (r: Outcome)
    ensures |dates| == 0 ==> r == NoDates(NoStandardDates)
    ensures |dates| == 1 ==> r == Dates(dates[0], dates[0], OneDay)
    ensures |dates| >= 2 ==> r.Dates? && r.note.StandardRange?
    ensures |dates| >= 2 ==> LexLe(r.start, r.end)
    ensures |dates| >= 2 ==> (r.note.swapped <==> !LexLe(dates[0], dates[1]))
    ensures |dates| >= 2 ==> (r.start, r.end) == if r.note.swapped then (dates[1], dates[0]) else (dates[0], dates[1])
  {
    if |dates| == 1 then Dates(dates[0], dates[0], OneDay)
    else if |dates| >= 2 then
      var (a, b) := (dates[0], dates[1]);
      LexLeTotal(a, b);
      if LexLe(a, b) then Dates(a, b, StandardRange(false)) else Dates(b, a, StandardRange(true))
    else NoDates(NoStandardDates)
  }

  /** Giving the two dates in either order yields the same period. */
  lemma StandardDatesSymmetric(a: string, b: string, rest1: seq<string>, rest2: seq<string>)
    ensures var r1, r2 := StandardDates([a, b] + rest1), StandardDates([b, a] + rest2);
      r1.Dates? && r2.Dates? && r1.start == r2.start && r1.end == r2.end
  {
    LexLeTotal(a, b);
  }

  // ---------------------------------------------------------------------
  // Fixed phrases (special_periods)
  // ---------------------------------------------------------------------

  /** After index `k`: one or more whitespace characters, then one of `seconds`. */
  predicate SpacedAt(s: string, k: nat, seconds: seq<string>) {
    k <= |s| && SpacesEnd(s, k) > k && exists b | b in seconds :: StartsAt(s, SpacesEnd(s, k), b)
  }

  /** A pattern `(a1|a2|...)\s+(b1|b2|...)` matches at index `i`. */
  predicate PhraseAt(s: string, i: nat, firsts: seq<string>, seconds: seq<string>) {
    exists a | a in firsts :: StartsAt(s, i, a) && SpacedAt(s, i + |a|, seconds)
  }

  predicate HasPhrase(s: string, firsts: seq<string>, seconds: seq<string>) {
    exists i | 0 <= i <= |s| :: PhraseAt(s, i, firsts, seconds)
  }

  const WEEK_FORMS: seq<string> := ["недели", "неделя", "неделе", "неделю"]
  const MONTH_FORMS: seq<string> := ["месяц", "месяце", "месяца", "месяцу"]
  const QUARTER_FORMS: seq<string> := ["квартал", "квартале", "квартала", "кварталу", "квартало"]
  const YEAR_FORMS: seq<string> := ["год", "году", "года"]

  /** `re.search(pattern, s)` for the pattern of each fixed phrase (date_parser.py:64-74). */
  predicate KeywordMatches(k: Keyword, s: string) {
    match k
    case Today => Contains(s, "сегодня") || Contains(s, "сейчас")
    case Yesterday => Contains(s, "вчера")
    case DayBeforeYesterday => Contains(s, "позавчера")
    case ThisWeek => HasPhrase(s, ["эта", "эту", "этой", "это", "этим"], WEEK_FORMS)
    case LastWeek => HasPhrase(s, ["прошлая", "прошлой", "прошлую"], WEEK_FORMS)
    case ThisMonth => HasPhrase(s, ["этот", "этому", "этим"], MONTH_FORMS)
    case LastMonth => HasPhrase(s, ["прошлый", "прошлого", "прошлому"], MONTH_FORMS)
    case ThisQuarter => HasPhrase(s, ["этот", "этому", "этим", "этом"], QUARTER_FORMS)
    case LastQuarter => HasPhrase(s, ["прошлый", "прошлого", "прошлому", "прошлом"], QUARTER_FORMS)
    case ThisYear => HasPhrase(s, ["этот", "этому", "этим"], YEAR_FORMS)
    case LastYear => HasPhrase(s, ["прошлый", "прошлого", "прошлому"], YEAR_FORMS)
  }

  /** The loop over `special_periods`: the first phrase whose pattern matches. */
  function FirstMatching(ks: seq<Keyword>, matches: Keyword -> bool): (r: Option<Keyword>)
    ensures r.None? <==> forall n | 0 <= n < |ks| :: !matches(ks[n])
    ensures r.Some? ==> (exists n | 0 <= n < |ks| ::
      ks[n] == r.value && matches(ks[n]) && forall m | 0 <= m < n :: !matches(ks[m]))
  {
    if ks == [] then None
    else if matches(ks[0]) then Some(ks[0])
    else
      var r := FirstMatching(ks[1..], matches);
      assert forall n | 1 <= n < |ks| :: ks[n] == ks[1..][n - 1];
      r
  }

  /** A day `weekday()` days, plus whole weeks, before `d` is a Monday. */
  lemma MondayBefore(d: Date, m: Date, weeks: int)
    requires 1 <= d.month <= 12 && 1 <= m.month <= 12
    requires Ordinal(m) + Weekday(d) + 7 * weeks == Ordinal(d)
    ensures Weekday(m) == 0
  {
    WeekdayStep(Ordinal(m), Ordinal(d), weeks);
  }

  /** Going back from day `y` by its weekday offset and whole weeks lands on an offset of zero. */
  lemma WeekdayStep(x: int, y: int, weeks: int)
    requires x + (y + 6) % 7 + 7 * weeks == y
    ensures (x + 6) % 7 == 0
  {
    var q := (y + 6) / 7;
    assert y + 6 == 7 * q + (y + 6) % 7;
    assert x + 6 == 7 * (q - weeks);
  }

  /** `_get_this_week`: the Monday of `now`'s week through the Sunday six days later. */
  function CurrentWeek(now: Date): (r: Option<Span>)
    requires Valid(now)
    ensures r.Some? <==> Ordinal(now) - Weekday(now) + 6 <= MAX_ORDINAL
    ensures r.Some? ==> (ValidSpan(r.value) && Weekday(r.value.start) == 0
       && Ordinal(r.value.end) == Ordinal(r.value.start) + 6
       && Ordinal(r.value.start) <= Ordinal(now) <= Ordinal(r.value.end))
  {
    OrdinalBounds(now);
    assert Weekday(now) <= Ordinal(now) - 1;
    var monday := AddDays(now, -Weekday(now)).value;
    MondayBefore(now, monday, 0);
    var sunday := AddDays(monday, 6);
    if sunday.Some? then Some(Span(monday, sunday.value)) else None
  }

  /** `_get_last_week`: the Monday-to-Sunday week that ends just before `now`'s week begins. */
  function PreviousWeek(now: Date): (r: Option<Span>)
    requires Valid(now)
    ensures r.Some? <==> Ordinal(now) - Weekday(now) - 7 >= 1
    ensures r.Some? ==> (ValidSpan(r.value) && Weekday(r.value.start) == 0
       && Ordinal(r.value.end) == Ordinal(r.value.start) + 6
       && Ordinal(r.value.start) + 7 == Ordinal(now) - Weekday(now))
  {
    OrdinalBounds(now);
    var back := AddDays(now, -(Weekday(now) + 7));
    if back.None? then None
    else
      var monday := back.value;
      MondayBefore(now, monday, 1);
      var sunday := AddDays(monday, 6);
      assert sunday.Some?;
      Some(Span(monday, sunday.value))
  }

  /** `_get_this_month`: the first through the last day of `now`'s month. */
  function CurrentMonth(now: Date): (r: Span)
    requires Valid(now)
    ensures ValidSpan(r) && r.start.day == 1 && r.end.day == DaysInMonth(now.year, now.month)
    ensures r.start.year == r.end.year == now.year && r.start.month == r.end.month == now.month
    ensures Ordinal(r.start) <= Ordinal(now) <= Ordinal(r.end)
  {
    Span(Date(now.year, now.month, 1), Date(now.year, now.month, DaysInMonth(now.year, now.month)))
  }

  /**
   * `_get_last_month`: the whole month before `now`'s, December of the
   * previous year in January; `replace(year=0)` raises in January of year 1.
   */
  function PreviousMonth(now: Date): (r: Option<Span>)
    requires Valid(now)
    ensures r.None? <==> now.year == 1 && now.month == 1
    ensures r.Some? ==> (ValidSpan(r.value) && r.value.start.day == 1
       && r.value.start.year == r.value.end.year && r.value.start.month == r.value.end.month
       && r.value.end.day == DaysInMonth(r.value.end.year, r.value.end.month)
       && Ordinal(r.value.end) + 1 == Ordinal(Date(now.year, now.month, 1)))
    ensures r.Some? && now.month == 1 ==> r.value.start.year == now.year - 1 && r.value.start.month == 12
  {
    var first := if now.month == 1 then Date(now.year - 1, 12, 1) else Date(now.year, now.month - 1, 1);
    if first.year < MIN_YEAR then None
    else
      MonthLength(first.year, first.month);
      YearLength(first.year);
      Some(Span(first, Date(first.year, first.month, DaysInMonth(first.year, first.month))))
  }

  /** `_get_this_year`: 1 January through 31 December of `now`'s year. */
  function CurrentYear(now: Date): (r: Span)
    requires Valid(now)
    ensures ValidSpan(r) && r.start == Date(now.year, 1, 1) && r.end == Date(now.year, 12, 31)
    ensures Ordinal(r.start) <= Ordinal(now) <= Ordinal(r.end)
    ensures Ordinal(r.end) - Ordinal(r.start) + 1 == DaysInYear(now.year)
  {
    OrdinalOrder(Date(now.year, 1, 1), now);
    OrdinalOrder(now, Date(now.year, 12, 31));
    MonthLength(now.year, 12);
    Span(Date(now.year, 1, 1), Date(now.year, 12, 31))
  }

  /** `_get_last_year`: the whole previous year; `datetime(0, 1, 1)` raises in year 1. */
  function PreviousYear(now: Date): (r: Option<Span>)
    requires Valid(now)
    ensures r.None? <==> now.year == 1
    ensures r.Some? ==> (ValidSpan(r.value) && r.value.start == Date(now.year - 1, 1, 1)
       && r.value.end == Date(now.year - 1, 12, 31)
       && Ordinal(r.value.end) + 1 == Ordinal(Date(now.year, 1, 1)))
  {
    if now.year == 1 then None
    else
      YearLength(now.year - 1);
      Some(Span(Date(now.year - 1, 1, 1), Date(now.year - 1, 12, 31)))
  }

  /** The calendar quarter `q` of year `y`: its first month `3q - 2` through its last month `3q`. */
  predicate IsQuarter(sp: Span, q: int, y: int) {
    1 <= q <= 4 && 1 <= y <= MAX_YEAR
    && sp.start == Date(y, 3 * q - 2, 1) && sp.end == Date(y, 3 * q, DaysInMonth(y, 3 * q))
  }

  /**
   * The date pair built for quarter `q` of year `year` (lines 292-307; the
   * same table appears in `_get_this_quarter` and `_get_last_quarter`);
   * `datetime` raises for year 0.
   */
  function QuarterSpan(q: int, year: int): (r: Option<Span>)
    requires 1 <= q <= 4 && year <= MAX_YEAR
    ensures r.Some? <==> year >= MIN_YEAR
    ensures r.Some? ==> (ValidSpan(r.value) && IsQuarter(r.value, q, year)
       && Ordinal(r.value.start) <= Ordinal(r.value.end))
  {
    if year < MIN_YEAR then None
    else if q == 1 then Some(Span(Date(year, 1, 1), Date(year, 3, 31)))
    else if q == 2 then Some(Span(Date(year, 4, 1), Date(year, 6, 30)))
    else if q == 3 then Some(Span(Date(year, 7, 1), Date(year, 9, 30)))
    else Some(Span(Date(year, 10, 1), Date(year, 12, 31)))
  }

  /** The number of the quarter month `m` belongs to. */
  function QuarterOfMonth(m: int): int {
    (m - 1) / 3 + 1
  }

  /** `_get_this_quarter`: the calendar quarter that contains `now`. */
  function CurrentQuarter(now: Date): (r: Span)
    requires Valid(now)
    ensures ValidSpan(r) && IsQuarter(r, QuarterOfMonth(now.month), now.year)
    ensures Ordinal(r.start) <= Ordinal(now) <= Ordinal(r.end)
  {
    var y := now.year;
    var r := if now.month <= 3 then Span(Date(y, 1, 1), Date(y, 3, 31))
      else if now.month <= 6 then Span(Date(y, 4, 1), Date(y, 6, 30))
      else if now.month <= 9 then Span(Date(y, 7, 1), Date(y, 9, 30))
      else Span(Date(y, 10, 1), Date(y, 12, 31));
    OrdinalOrder(r.start, now);
    OrdinalOrder(now, r.end);
    r
  }

  /**
   * `_get_last_quarter`: the quarter that ends the day before the current
   * quarter starts, the fourth quarter of the previous year when `now` is in
   * the first; `datetime(0, 10, 1)` raises in the first quarter of year 1.
   */
  function PreviousQuarter(now: Date): (r: Option<Span>)
    requires Valid(now)
    ensures r.None? <==> now.year == 1 && now.month <= 3
    ensures r.Some? ==> ValidSpan(r.value)
    ensures r.Some? && now.month <= 3 ==> IsQuarter(r.value, 4, now.year - 1)
    ensures r.Some? && now.month > 3 ==> IsQuarter(r.value, QuarterOfMonth(now.month) - 1, now.year)
  {
    var y := now.year;
    if now.month <= 3 then
      if y == 1 then None
      else
        assert QuarterOfMonth(now.month) == 1;
        Some(Span(Date(y - 1, 10, 1), Date(y - 1, 12, 31)))
    else if now.month <= 6 then
      assert QuarterOfMonth(now.month) == 2;
      Some(Span(Date(y, 1, 1), Date(y, 3, 31)))
    else if now.month <= 9 then
      assert QuarterOfMonth(now.month) == 3;
      Some(Span(Date(y, 4, 1), Date(y, 6, 30)))
    else
      assert QuarterOfMonth(now.month) == 4;
      Some(Span(Date(y, 7, 1), Date(y, 9, 30)))
  }

  /** Last quarter ends the day before the current quarter starts. */
  lemma PreviousQuarterAdjacent(now: Date)
    requires Valid(now)
    ensures PreviousQuarter(now).Some? ==>
      Ordinal(PreviousQuarter(now).value.end) + 1 == Ordinal(CurrentQuarter(now).start)
  {
    var y := now.year;
    var prev, cur := PreviousQuarter(now), CurrentQuarter(now);
    if now.month <= 3 {
      assert QuarterOfMonth(now.month) == 1 && cur.start == Date(y, 1, 1);
      if y > 1 {
        assert prev.value.end == Date(y - 1, 12, 31);
        MonthEndThenFirst(y - 1, 12);
      }
    } else if now.month <= 6 {
      assert QuarterOfMonth(now.month) == 2 && cur.start == Date(y, 4, 1);
      assert prev.value.end == Date(y, 3, 31);
      MonthEndThenFirst(y, 3);
    } else if now.month <= 9 {
      assert QuarterOfMonth(now.month) == 3 && cur.start == Date(y, 7, 1);
      assert prev.value.end == Date(y, 6, 30);
      MonthEndThenFirst(y, 6);
    } else {
      assert QuarterOfMonth(now.month) == 4 && cur.start == Date(y, 10, 1);
      assert prev.value.end == Date(y, 9, 30);
      MonthEndThenFirst(y, 9);
    }
  }

  /** `func()` for the fixed phrase that matched. */
  function KeywordPeriod(k: Keyword, now: Date): (r: Outcome)
    requires Valid(now)
    ensures !r.NoDates?
    ensures r.Dates? ==> r.note == Special(k)
  {
    var note := Special(k);
    match k
    case Today => Dates(Iso(now), Iso(now), note)
    case Yesterday => FromSpan(DaySpan(AddDays(now, -1)), note, OverflowError)
    case DayBeforeYesterday => FromSpan(DaySpan(AddDays(now, -2)), note, OverflowError)
    case ThisWeek => FromSpan(CurrentWeek(now), note, OverflowError)
    case LastWeek => FromSpan(PreviousWeek(now), note, OverflowError)
    case ThisMonth => FromSpan(Some(CurrentMonth(now)), note, ValueError)
    case LastMonth => FromSpan(PreviousMonth(now), note, ValueError)
    case ThisQuarter => FromSpan(Some(CurrentQuarter(now)), note, ValueError)
    case LastQuarter => FromSpan(PreviousQuarter(now), note, ValueError)
    case ThisYear => FromSpan(Some(CurrentYear(now)), note, ValueError)
    case LastYear => FromSpan(PreviousYear(now), note, ValueError)
  }

  /** The one-day period of the day `back` days before `now`, as `r` reports it. */
  ghost predicate DayBack(r: Outcome, now: Date, back: int) {
    Valid(now) && r.Dates? &&
    exists d | Valid(d) && Ordinal(d) + back == Ordinal(now) :: r.start == Iso(d) && r.end == Iso(d)
  }

  /**
   * "сегодня", "вчера" and "позавчера" are the single days today, today - 1
   * and today - 2; the last two raise `OverflowError` exactly when that day
   * would fall before 0001-01-01.
   */
  lemma DayPhrasePeriods(now: Date)
    requires Valid(now)
    ensures KeywordPeriod(Today, now) == Dates(Iso(now), Iso(now), Special(Today))
    ensures var r := KeywordPeriod(Yesterday, now);
      (r.Dates? <==> Ordinal(now) >= 2) && (r.Dates? ==> DayBack(r, now, 1)) && (!r.Dates? ==> r == Raised(OverflowError))
    ensures var r := KeywordPeriod(DayBeforeYesterday, now);
      (r.Dates? <==> Ordinal(now) >= 3) && (r.Dates? ==> DayBack(r, now, 2)) && (!r.Dates? ==> r == Raised(OverflowError))
  {
    OrdinalBounds(now);
    DayBackPeriod(Yesterday, now, 1);
    DayBackPeriod(DayBeforeYesterday, now, 2);
  }

  lemma DayBackPeriod(k: Keyword, now: Date, back: int)
    requires Valid(now)
    requires (k == Yesterday && back == 1) || (k == DayBeforeYesterday && back == 2)
    ensures var r := KeywordPeriod(k, now);
      (r.Dates? <==> Ordinal(now) - back >= 1) && (r.Dates? ==> DayBack(r, now, back)) && (!r.Dates? ==> r == Raised(OverflowError))
  {
    OrdinalBounds(now);
    var d := AddDays(now, -back);
    if d.Some? {
      assert Ordinal(d.value) + back == Ordinal(now);
    }
  }

  /** The phrases for the current day, month, quarter and year never raise. */
  lemma CurrentPhrasesNeverRaise(k: Keyword, now: Date)
    requires Valid(now)
    requires k == Today || k == ThisMonth || k == ThisQuarter || k == ThisYear
    ensures KeywordPeriod(k, now).Dates?
  {
  }

  /** A one-day period. */
  function DaySpan(d: Option<Date>): (r: Option<Span>)
    requires d.Some? ==> Valid(d.value)
  {
    match d
    case Some(day) => Some(Span(day, day))
    case None => None
  }

  // ---------------------------------------------------------------------
  // Months (_parse_month_period)
  // ---------------------------------------------------------------------

  /** The month names captured by a month-range match, and its year digits ("" when absent). */
  datatype MonthRangeMatch = MonthRangeMatch(startName: string, endName: string, year: string)

  /** `с\s+(\w+)\s+по\s+(\w+)(?:\s+(\d{4}))?` matches at index `i`. */
  function MonthRangeAt(s: string, i: nat): (r: Option<MonthRangeMatch>)
    requires i <= |s|
    ensures r.Some? ==> HasLoosePo(s)
    ensures r.Some? ==> r.value.year == "" || (|r.value.year| == 4 && AllDigits(r.value.year))
  {
    if i >= |s| || s[i] != 'с' then None else
    var j1 := SpacesEnd(s, i + 1);
    var e1 := WordEnd(s, j1);
    if j1 == i + 1 || e1 == j1 then None else
    var j2 := SpacesEnd(s, e1);
    if j2 == e1 || !StartsAt(s, j2, "по") then None else
    var j3 := SpacesEnd(s, j2 + 2);
    var e2 := WordEnd(s, j3);
    if j3 == j2 + 2 || e2 == j3 then None else
    assert LoosePoAt(s, j2);
    Some(MonthRangeMatch(s[j1..e1], s[j3..e2], TrailingYear(s, e2)))
  }

  /** The leftmost month-range match at or after `i` (`re.search`). */
  function FindMonthRange(s: string, i: nat): (r: Option<MonthRangeMatch>)
    requires i <= |s|
    ensures r.Some? ==> r.value.year == "" || (|r.value.year| == 4 && AllDigits(r.value.year))
  {
    var m := MonthRangeMatcher(s);
    LeftmostFirst(m, i, |s|);
    var r := Leftmost(m, i, |s|);
    assert r.Some? ==> r.value.year == "" || (|r.value.year| == 4 && AllDigits(r.value.year)) by {
      if r.Some? {
        var j :| i <= j < |s| && r == m(j) && forall k | i <= k < j :: m(k).None?;
        MonthRangeMatcherAt(s, j);
      }
    }
    r
  }

  /** The month-range match at each index of `s`, and none past its end. */
  function MonthRangeMatcher(s: string): nat -> Option<MonthRangeMatch> {
    (j: nat) => if j <= |s| then MonthRangeAt(s, j) else None
  }

  lemma MonthRangeMatcherAt(s: string, j: nat)
    requires j <= |s|
    ensures MonthRangeMatcher(s)(j) == MonthRangeAt(s, j)
  {
  }

  /** `FindMonthRange` finds the match at the least index from `i` on, and none only when no index has one. */
  lemma FindMonthRangeLeftmost(s: string, i: nat)
    requires i <= |s|
    ensures var r := FindMonthRange(s, i);
      r.Some? ==> exists j | i <= j < |s| :: (r == MonthRangeAt(s, j)
        && forall k | i <= k < j :: MonthRangeAt(s, k).None?)
    ensures FindMonthRange(s, i).None? ==> forall j | i <= j <= |s| :: MonthRangeAt(s, j).None?
  {
    var m := MonthRangeMatcher(s);
    LeftmostFirst(m, i, |s|);
    var r := Leftmost(m, i, |s|);
    if r.Some? {
      var j :| i <= j < |s| && r == m(j) && forall k | i <= k < j :: m(k).None?;
      MonthRangeMatcherAt(s, j);
      forall k | i <= k < j
        ensures MonthRangeAt(s, k).None?
      {
        MonthRangeMatcherAt(s, k);
      }
    } else {
      forall j | i <= j <= |s|
        ensures MonthRangeAt(s, j).None?
      {
        MonthRangeMatcherAt(s, j);
      }
    }
  }

  /**
   * `(?:\s+(\d{4}))?\b` after a word ending at `e`: the year digits and where
   * the match ends, or no year when the digits are absent or run on.
   */
  function OptionalYear(s: string, e: nat): (r: (string, nat))
    requires e <= |s|
    ensures r.0 == "" ==> r.1 == e
    ensures r.0 != "" ==> |r.0| == 4 && AllDigits(r.0) && e < r.1 <= |s|
    ensures r.1 == |s| || !IsWordChar(s[r.1]) || r.1 == e
  {
    var j := SpacesEnd(s, e);
    if j > e && DigitsAt(s, j, 4) && (j + 4 == |s| || !IsWordChar(s[j + 4])) then
      DigitsAtSlice(s, j, 4);
      (s[j..j + 4], j + 4)
    else ("", e)
  }

  /** A word that names a key of `names` (in any letter case) starts at `j`. */
  predicate NamedWordAt(s: string, j: nat, names: map<string, int>) {
    WordStart(s, j) && LowerStr(s[j..WordEnd(s, j)]) in names
  }

  /** No key of `names` is made of digits alone. */
  predicate NoDigitNames(names: map<string, int>) {
    forall k | k in names :: k != [] && !IsDigit(k[0])
  }

  /**
   * The loop over `re.findall(r'\b(\w+)(?:\s+(\d{4}))?\b', s)` from index
   * `i`: every word in turn, with the year that follows it; the first word
   * whose lower-case form is a key of `names` is returned with its year
   * digits ("" when absent).
   */
  function FindNamedWord(s: string, i: nat, names: map<string, int>): (r: Option<(string, string)>)
    requires i <= |s|
    ensures r.Some? ==> LowerStr(r.value.0) in names
    ensures r.Some? ==> r.value.1 == "" || (|r.value.1| == 4 && AllDigits(r.value.1))
    decreases |s| - i
  {
    if i == |s| then None
    else if WordStart(s, i) then
      var e := WordEnd(s, i);
      var (year, next) := OptionalYear(s, e);
      if LowerStr(s[i..e]) in names then Some((s[i..e], year))
      else FindNamedWord(s, next, names)
    else FindNamedWord(s, i + 1, names)
  }

  /** The `findall` loop of `_parse_month_period` looking up `MONTHS_RU`. */
  function FindMonthWord(s: string, i: nat): (r: Option<(string, string)>)
    requires i <= |s|
    ensures r.Some? ==> LowerStr(r.value.0) in MONTHS_RU
    ensures r.Some? ==> r.value.1 == "" || (|r.value.1| == 4 && AllDigits(r.value.1))
  {
    FindNamedWord(s, i, MONTHS_RU)
  }

  /**
   * `r` is what a left-to-right search from `i` for a word naming a key of
   * `names` finds: the first such word with the year digits that follow it,
   * or nothing exactly when no word from `i` on names a key.
   */
  predicate IsFirstNamedWord(s: string, i: nat, names: map<string, int>, r: Option<(string, string)>)
    requires i <= |s|
  {
    (r.Some? ==> exists j | i <= j < |s| :: (NamedWordAt(s, j, names)
      && (forall k | i <= k < j :: !NamedWordAt(s, k, names))
      && r.value == (s[j..WordEnd(s, j)], OptionalYear(s, WordEnd(s, j)).0)))
    && (r.None? ==> forall j | i <= j < |s| :: !NamedWordAt(s, j, names))
  }

  /** The scan finds the first word from `i` on that names a key of `names`. */
  lemma {:induction false} FindNamedWordLeftmost(s: string, i: nat, names: map<string, int>)
    requires i <= |s| && NoDigitNames(names)
    ensures IsFirstNamedWord(s, i, names, FindNamedWord(s, i, names))
    decreases |s| - i
  {
    if i < |s| {
      var e := WordEnd(s, i);
      if WordStart(s, i) && LowerStr(s[i..e]) in names {
        FirstNamedWordHere(s, i, names);
      } else {
        var next := NamedWordStep(s, i, names);
        FindNamedWordLeftmost(s, next, names);
        FirstNamedWordSkip(s, i, next, names, FindNamedWord(s, next, names));
      }
    }
  }

  /** A named word at `i` is the first from `i`. */
  lemma FirstNamedWordHere(s: string, i: nat, names: map<string, int>)
    requires NamedWordAt(s, i, names)
    ensures IsFirstNamedWord(s, i, names, FindNamedWord(s, i, names))
  {
    var e := WordEnd(s, i);
    assert FindNamedWord(s, i, names) == Some((s[i..e], OptionalYear(s, e).0));
  }

  /** Where the scan goes on from `i` when no named word starts there. */
  lemma NamedWordStep(s: string, i: nat, names: map<string, int>) returns (next: nat)
    requires i < |s| && !NamedWordAt(s, i, names) && NoDigitNames(names)
    ensures i < next <= |s| && FindNamedWord(s, i, names) == FindNamedWord(s, next, names)
    ensures forall k | i <= k < next :: !NamedWordAt(s, k, names)
  {
    if WordStart(s, i) {
      next := OptionalYear(s, WordEnd(s, i)).1;
      SkippedNoName(s, i, names);
    } else {
      next := i + 1;
    }
  }

  /** A first named word from `next` is the first from `i` when none starts in between. */
  lemma FirstNamedWordSkip(s: string, i: nat, next: nat, names: map<string, int>, r: Option<(string, string)>)
    requires i <= next <= |s| && IsFirstNamedWord(s, next, names, r)
    requires forall k | i <= k < next :: !NamedWordAt(s, k, names)
    ensures IsFirstNamedWord(s, i, names, r)
  {
    if r.Some? {
      var j :| next <= j < |s| && NamedWordAt(s, j, names)
        && (forall k | next <= k < j :: !NamedWordAt(s, k, names))
        && r.value == (s[j..WordEnd(s, j)], OptionalYear(s, WordEnd(s, j)).0);
      assert forall k | i <= k < j :: !NamedWordAt(s, k, names);
    }
  }

  /**
   * The month word returned is the first word of `s` from `i` on that names
   * a month, with the year digits after it; none is returned exactly when
   * no word from `i` on names a month.
   */
  lemma FindMonthWordLeftmost(s: string, i: nat)
    requires i <= |s|
    ensures IsFirstNamedWord(s, i, MONTHS_RU, FindMonthWord(s, i))
  {
    MonthNamesNotDigits();
    FindNamedWordLeftmost(s, i, MONTHS_RU);
  }

  /** No month name is made of digits. */
  lemma MonthNamesNotDigits()
    ensures NoDigitNames(MONTHS_RU)
  {
  }

  /**
   * The words a `findall` match consumes after a word that names no key
   * are the word itself and, when a year follows, its four digits: no named
   * word starts in between.
   */
  lemma SkippedNoName(s: string, i: nat, names: map<string, int>)
    requires WordStart(s, i) && LowerStr(s[i..WordEnd(s, i)]) !in names && NoDigitNames(names)
    ensures forall k | i <= k < OptionalYear(s, WordEnd(s, i)).1 :: !NamedWordAt(s, k, names)
  {
    var e := WordEnd(s, i);
    var next := OptionalYear(s, e).1;
    if next != e {
      var y := SpacesEnd(s, e);
      assert y + 4 == next && DigitsAt(s, y, 4);
      assert WordEnd(s, y) == y + 4 by {
        WordEndOfDigits(s, y);
      }
      DigitsAtSlice(s, y, 4);
      var w := s[y..y + 4];
      assert LowerStr(w)[0] == w[0];
    }
  }

  /** Four digits followed by a non-word character form one whole word. */
  lemma WordEndOfDigits(s: string, y: nat)
    requires DigitsAt(s, y, 4) && (y + 4 == |s| || !IsWordChar(s[y + 4]))
    ensures WordEnd(s, y) == y + 4
  {
    assert IsWordChar(s[y]) && IsWordChar(s[y + 1]) && IsWordChar(s[y + 2]) && IsWordChar(s[y + 3]);
  }

  /** The first through the last day of month `m` of `year`; `datetime` raises for year 0 or 10000. */
  function MonthSpan(year: int, m: int): (r: Option<Span>)
    requires 1 <= m <= 12
    ensures r.Some? <==> MIN_YEAR <= year <= MAX_YEAR
    ensures r.Some? ==> (ValidSpan(r.value) && r.value.start == Date(year, m, 1)
       && r.value.end == Date(year, m, DaysInMonth(year, m))
       && Ordinal(r.value.end) - Ordinal(r.value.start) + 1 == DaysInMonth(year, m))
    ensures r.Some? && m == 2 ==> (r.value.end.day == 29 <==> IsLeap(year))
  {
    match (MakeDate(year, m, 1), MakeDate(year, m, DaysInMonth(year, m)))
    case (Some(first), Some(last)) => Some(Span(first, last))
    case _ => None
  }

  /**
   * A month range starting in month `sm` of `year`: when the end month
   * `em` comes earlier in the calendar, the range runs into the next year.
   */
  function MonthRangeSpan(year: int, sm: int, em: int): (r: Option<Span>)
    requires 1 <= sm <= 12 && 1 <= em <= 12
    ensures r.Some? <==> MIN_YEAR <= year && year + (if em < sm then 1 else 0) <= MAX_YEAR
    ensures r.Some? ==> (ValidSpan(r.value) && r.value.start == Date(year, sm, 1)
       && r.value.end.month == em && r.value.end.day == DaysInMonth(r.value.end.year, em)
       && r.value.end.year == (if em < sm then year + 1 else year)
       && Ordinal(r.value.start) <= Ordinal(r.value.end))
  {
    var endYear := if em < sm then year + 1 else year;
    match (MakeDate(year, sm, 1), MakeDate(endYear, em, DaysInMonth(endYear, em)))
    case (Some(first), Some(last)) =>
      OrdinalOrder(first, last);
      Some(Span(first, last))
    case _ => None
  }

  /** `int(year) if year else self.today.year`. */
  function YearOrNow(digits: string, now: Date): (y: int)
    requires |digits| <= 4 && AllDigits(digits) && Valid(now)
    ensures y <= MAX_YEAR
  {
    if digits != "" then ParseNatBounded(digits) else now.year
  }

  /** `_parse_month_period`. */
  function MonthPeriod(s: string, now: Date): Outcome
    requires Valid(now)
  {
    TablesInRange();
    var range := FindMonthRange(s, 0);
    if range.Some? && LowerStr(range.value.startName) in MONTHS_RU && LowerStr(range.value.endName) in MONTHS_RU then
      var m := range.value;
      var sm, em := MONTHS_RU[LowerStr(m.startName)], MONTHS_RU[LowerStr(m.endName)];
      var year := YearOrNow(m.year, now);
      FromSpan(MonthRangeSpan(year, sm, em), MonthRangeOf(m.startName, year, m.endName, if em < sm then year + 1 else year), ValueError)
    else
      match FindMonthWord(s, 0)
      case Some((name, digits)) =>
        var year := YearOrNow(digits, now);
        FromSpan(MonthSpan(year, MONTHS_RU[LowerStr(name)]), MonthOf(name, year), ValueError)
      case None => NoDates(Silent)
  }

  /** `int(...)` of a string of at most four digits. */
  function ParseNatBounded(digits: string): (n: nat)
    requires |digits| <= 4 && AllDigits(digits)
    ensures n <= MAX_YEAR
  {
    ParseNatBound(digits);
    assert Pow10(1) == 10 && Pow10(2) == 100 && Pow10(3) == 1000 && Pow10(4) == 10000;
    ParseNat(digits)
  }

  lemma {:induction false} ParseNatBound(digits: string)
    requires AllDigits(digits)
    ensures ParseNat(digits) < Pow10(|digits|)
  {
    if digits != [] {
      ParseNatBound(digits[..|digits| - 1]);
    }
  }

  // ---------------------------------------------------------------------
  // Specific quarters (_parse_specific_quarter)
  // ---------------------------------------------------------------------

  /**
   * `(\w+(?:-\w+)?)\s+квартал[еауо]?` at index `i`, followed by `\s+(\d{4})`
   * when `withYear` and by `(?:\s|$)` otherwise: the designator (group 1)
   * and the year digits (group 2, "" for the pattern without a year).
   */
  function QuarterAt(s: string, i: nat, withYear: bool): (r: Option<(string, string)>)
    requires i <= |s|
    ensures r.Some? && withYear ==> |r.value.1| == 4 && AllDigits(r.value.1)
    ensures r.Some? && !withYear ==> r.value.1 == ""
  {
    var e1 := WordEnd(s, i);
    if e1 == i then None else
    var g := if e1 + 1 < |s| && s[e1] == '-' && IsWordChar(s[e1 + 1]) then WordEnd(s, e1 + 1) else e1;
    var j := SpacesEnd(s, g);
    if j == g || !StartsAt(s, j, "квартал") then None else
    var k := j + 7;
    var p := if k < |s| && (s[k] == 'е' || s[k] == 'а' || s[k] == 'у' || s[k] == 'о') then k + 1 else k;
    if withYear then
      var q := SpacesEnd(s, p);
      if q > p && DigitsAt(s, q, 4) then
        DigitsAtSlice(s, q, 4);
        Some((s[i..g], s[q..q + 4]))
      else None
    else if p == |s| || IsSpace(s[p]) then Some((s[i..g], ""))
    else None
  }

  /** The leftmost quarter match at or after `i` (`re.search`). */
  function FindQuarter(s: string, i: nat, withYear: bool): (r: Option<(string, string)>)
    requires i <= |s|
    ensures r.Some? && withYear ==> |r.value.1| == 4 && AllDigits(r.value.1)
    ensures r.Some? && !withYear ==> r.value.1 == ""
  {
    var m := QuarterMatcher(s, withYear);
    LeftmostFirst(m, i, |s|);
    var r := Leftmost(m, i, |s|);
    assert r.Some? ==> (withYear ==> |r.value.1| == 4 && AllDigits(r.value.1)) && (!withYear ==> r.value.1 == "") by {
      if r.Some? {
        var j :| i <= j < |s| && r == m(j) && forall k | i <= k < j :: m(k).None?;
        QuarterMatcherAt(s, withYear, j);
      }
    }
    r
  }

  /** The quarter match at each index of `s`, and none past its end. */
  function QuarterMatcher(s: string, withYear: bool): nat -> Option<(string, string)> {
    (j: nat) => if j <= |s| then QuarterAt(s, j, withYear) else None
  }

  lemma QuarterMatcherAt(s: string, withYear: bool, j: nat)
    requires j <= |s|
    ensures QuarterMatcher(s, withYear)(j) == QuarterAt(s, j, withYear)
  {
  }

  /** `FindQuarter` finds the match at the least index from `i` on, and none only when no index has one. */
  lemma FindQuarterLeftmost(s: string, i: nat, withYear: bool)
    requires i <= |s|
    ensures var r := FindQuarter(s, i, withYear);
      r.Some? ==> exists j | i <= j < |s| :: (r == QuarterAt(s, j, withYear)
        && forall k | i <= k < j :: QuarterAt(s, k, withYear).None?)
    ensures FindQuarter(s, i, withYear).None? ==> forall j | i <= j <= |s| :: QuarterAt(s, j, withYear).None?
  {
    var m := QuarterMatcher(s, withYear);
    LeftmostFirst(m, i, |s|);
    var r := Leftmost(m, i, |s|);
    if r.Some? {
      var j :| i <= j < |s| && r == m(j) && forall k | i <= k < j :: m(k).None?;
      QuarterMatcherAt(s, withYear, j);
      forall k | i <= k < j
        ensures QuarterAt(s, k, withYear).None?
      {
        QuarterMatcherAt(s, withYear, k);
      }
    } else {
      forall j | i <= j <= |s|
        ensures QuarterAt(s, j, withYear).None?
      {
        QuarterMatcherAt(s, withYear, j);
      }
    }
  }

  /** `_parse_specific_quarter`: the pattern with a year is searched first, then the one without. */
  function SpecificQuarter(s: string, now: Date): Outcome
    requires Valid(now)
  {
    QuarterChoice(FindQuarter(s, 0, true), FindQuarter(s, 0, false), now)
  }

  /** A quarter match whose designator is in `QUARTER_NUMBERS`. */
  predicate Settles(m: Option<(string, string)>) {
    m.Some? && LowerStr(m.value.0) in QUARTER_NUMBERS
  }

  /**
   * The answer of `_parse_specific_quarter` given the captures of its two
   * searches: a designator missing from the table moves on to the next
   * pattern, and the pattern without a year takes `now`'s year.
   */
  function QuarterChoice(withYear: Option<(string, string)>, bare: Option<(string, string)>, now: Date): Outcome
    requires Valid(now)
    requires withYear.Some? ==> |withYear.value.1| == 4 && AllDigits(withYear.value.1)
  {
    TablesInRange();
    if Settles(withYear) then
      var q := QUARTER_NUMBERS[LowerStr(withYear.value.0)];
      var year := ParseNatBounded(withYear.value.1);
      FromSpan(QuarterSpan(q, year), QuarterOf(q, year), ValueError)
    else if Settles(bare) then
      var q := QUARTER_NUMBERS[LowerStr(bare.value.0)];
      FromSpan(QuarterSpan(q, now.year), QuarterOf(q, now.year), ValueError)
    else NoDates(Silent)
  }

  // ---------------------------------------------------------------------
  // "последние N ..." (_parse_last_period)
  // ---------------------------------------------------------------------

  /** End of the run of characters from `cs` starting at `i`. */
  function CharsEnd(s: string, i: nat, cs: string): (j: nat)
    requires i <= |s|
    ensures i <= j <= |s|
    ensures forall k :: i <= k < j ==> s[k] in cs
    ensures j == |s| || s[j] !in cs
    decreases |s| - i
  {
    if i < |s| && s[i] in cs then CharsEnd(s, i + 1, cs) else i
  }

  function UnitStem(u: Unit): string {
    match u
    case Days => "дн"
    case Weeks => "недел"
    case Months => "месяц"
  }

  function UnitEndings(u: Unit): string {
    match u
    case Days => "ияей"
    case Weeks => "иьяю"
    case Months => "аеов"
  }

  /** `последни[ехий]+\s+(\d+)\s+<stem>[<endings>]+` at index `i`: the digits of group 1. */
  function LastAt(s: string, i: nat, u: Unit): (r: Option<string>)
    requires i <= |s|
    ensures r.Some? ==> r.value != "" && AllDigits(r.value)
  {
    if !StartsAt(s, i, "последни") then None else
    var e := CharsEnd(s, i + 8, "ехий");
    var j := SpacesEnd(s, e);
    var d := DigitsEnd(s, j);
    var m := SpacesEnd(s, d);
    var stem := UnitStem(u);
    if e == i + 8 || j == e || d == j || m == d then None
    else if StartsAt(s, m, stem) && m + |stem| < |s| && s[m + |stem|] in UnitEndings(u) then Some(s[j..d])
    else None
  }

  /** The leftmost match of the pattern for unit `u` at or after `i`. */
  function FindLast(s: string, i: nat, u: Unit): (r: Option<string>)
    requires i <= |s|
    ensures r.Some? ==> r.value != "" && AllDigits(r.value)
  {
    var m := LastMatcher(s, u);
    LeftmostFirst(m, i, |s|);
    var r := Leftmost(m, i, |s|);
    assert r.Some? ==> r.value != "" && AllDigits(r.value) by {
      if r.Some? {
        var j :| i <= j < |s| && r == m(j) && forall k | i <= k < j :: m(k).None?;
        LastMatcherAt(s, u, j);
      }
    }
    r
  }

  /** The "последние N" match at each index of `s`, and none past its end. */
  function LastMatcher(s: string, u: Unit): nat -> Option<string> {
    (j: nat) => if j <= |s| then LastAt(s, j, u) else None
  }

  lemma LastMatcherAt(s: string, u: Unit, j: nat)
    requires j <= |s|
    ensures LastMatcher(s, u)(j) == LastAt(s, j, u)
  {
  }

  /** `FindLast` finds the match at the least index from `i` on, and none only when no index has one. */
  lemma FindLastLeftmost(s: string, i: nat, u: Unit)
    requires i <= |s|
    ensures var r := FindLast(s, i, u);
      r.Some? ==> exists j | i <= j < |s| :: (r == LastAt(s, j, u)
        && forall k | i <= k < j :: LastAt(s, k, u).None?)
    ensures FindLast(s, i, u).None? ==> forall j | i <= j <= |s| :: LastAt(s, j, u).None?
  {
    var m := LastMatcher(s, u);
    LeftmostFirst(m, i, |s|);
    var r := Leftmost(m, i, |s|);
    if r.Some? {
      var j :| i <= j < |s| && r == m(j) && forall k | i <= k < j :: m(k).None?;
      LastMatcherAt(s, u, j);
      forall k | i <= k < j
        ensures LastAt(s, k, u).None?
      {
        LastMatcherAt(s, u, k);
      }
    } else {
      forall j | i <= j <= |s|
        ensures LastAt(s, j, u).None?
      {
        LastMatcherAt(s, u, j);
      }
    }
  }

  /** How many days before `now` the window for `count` units starts. */
  function Lookback(u: Unit, count: nat): int {
    match u
    case Days => count - 1
    case Weeks => 7 * count - 1
    case Months => 30 * count
  }

  /**
   * The start date for "последние N <unit>" (lines 373-385):
   * `today - timedelta(days=N-1)`, `today - timedelta(weeks=N) + timedelta(days=1)`
   * or `today - timedelta(days=N*30)`; `None` where the arithmetic overflows.
   */
  function LastStart(u: Unit, count: nat, now: Date): (r: Option<Date>)
    requires Valid(now)
    ensures r.Some? ==> Valid(r.value) && Ordinal(r.value) == Ordinal(now) - Lookback(u, count)
    ensures r.None? <==> (Ordinal(now) - Lookback(u, count) > MAX_ORDINAL
       || Ordinal(now) - (if u == Weeks then 7 * count else Lookback(u, count)) < 1)
  {
    OrdinalBounds(now);
    match u
    case Days => AddDays(now, -(count - 1))
    case Weeks =>
      (match AddDays(now, -7 * count)
       case Some(back) => AddDays(back, 1)
       case None => None)
    case Months => AddDays(now, -(count * 30))
  }

  /**
   * `_parse_last_period`: days, then weeks, then months. The period ends
   * `now` and starts where `LastStart` puts the count captured for the
   * first unit whose pattern is found; nothing is found exactly when no
   * unit's pattern is, and the only error is the overflow of a start
   * before 0001-01-01.
   */
  function LastPeriod(s: string, now: Date): (r: Outcome)
    requires Valid(now)
    ensures r.Dates? ==> (r.note.LastCount? && r.end == Iso(now)
      && FindLast(s, 0, r.note.unit).Some? && r.note.count == ParseNat(FindLast(s, 0, r.note.unit).value)
      && LastStart(r.note.unit, r.note.count, now).Some?
      && r.start == Iso(LastStart(r.note.unit, r.note.count, now).value))
    ensures (r.Dates? && r.note.unit != Days ==> FindLast(s, 0, Days).None?)
      && (r.Dates? && r.note.unit == Months ==> FindLast(s, 0, Weeks).None?)
    ensures (r.NoDates? <==> FindLast(s, 0, Days).None? && FindLast(s, 0, Weeks).None? && FindLast(s, 0, Months).None?)
      && (r.NoDates? ==> r.note == Silent)
    ensures r.Raised? ==> r.error == OverflowError
  {
    var units := if FindLast(s, 0, Days).Some? then Some(Days)
      else if FindLast(s, 0, Weeks).Some? then Some(Weeks)
      else if FindLast(s, 0, Months).Some? then Some(Months)
      else None;
    match units
    case None => NoDates(Silent)
    case Some(u) =>
      var count := ParseNat(FindLast(s, 0, u).value);
      match LastStart(u, count, now)
      case Some(start) => Dates(Iso(start), Iso(now), LastCount(u, count))
      case None => Raised(OverflowError)
  }

  /** With at least one unit, the window ends `now` and starts no later than `now`. */
  lemma LastWindowOrdered(u: Unit, count: nat, now: Date)
    requires Valid(now) && count >= 1
    ensures LastStart(u, count, now).Some? ==> Ordinal(LastStart(u, count, now).value) <= Ordinal(now)
    ensures LastStart(u, count, now).None? <==> Ordinal(now) - (if u == Weeks then 7 * count else Lookback(u, count)) < 1
  {
    OrdinalBounds(now);
  }

  // ---------------------------------------------------------------------
  // Concrete day-month ranges (_parse_concrete_period)
  // ---------------------------------------------------------------------

  datatype ConcreteMatch = ConcreteMatch(
    startDay: string, startMonth: string, startYear: string,
    endDay: string, endMonth: string, endYear: string)

  /** Days of one or two digits; years absent or of four digits. */
  predicate WellFormedConcrete(c: ConcreteMatch) {
    1 <= |c.startDay| <= 2 && AllDigits(c.startDay) && 1 <= |c.endDay| <= 2 && AllDigits(c.endDay)
    && (c.startYear == "" || (|c.startYear| == 4 && AllDigits(c.startYear)))
    && (c.endYear == "" || (|c.endYear| == 4 && AllDigits(c.endYear)))
  }

  /** The captures of `(\d{1,2})\s+(\w+)`, and where that match ends. */
  datatype DayMonth = DayMonth(day: string, month: string, end: nat)

  /** `(\d{1,2})\s+(\w+)` at index `j`. */
  function DayMonthAt(s: string, j: nat): (r: Option<DayMonth>)
    requires j <= |s|
    ensures r.Some? ==> (1 <= |r.value.day| <= 2 && AllDigits(r.value.day) && j < r.value.end <= |s|)
  {
    var d := DigitsEnd(s, j);
    var w := SpacesEnd(s, d);
    var e := WordEnd(s, w);
    if d == j || d - j > 2 || w == d || e == w then None
    else
      var day := s[j..d];
      assert forall k | 0 <= k < d - j :: day[k] == s[j + k];
      Some(DayMonth(day, s[w..e], e))
  }

  /** `(?:\s+(\d{4}))?` at index `e`, with nothing required after it: the digits, or "". */
  function TrailingYear(s: string, e: nat): (r: string)
    requires e <= |s|
    ensures r == "" || (|r| == 4 && AllDigits(r))
  {
    var y := SpacesEnd(s, e);
    if y > e && DigitsAt(s, y, 4) then
      DigitsAtSlice(s, y, 4);
      s[y..y + 4]
    else ""
  }

  /**
   * `(?:\s+(\d{4}))?\s+по\s+` after a word ending at `e`: where the text
   * after it starts, and the year digits ("" when absent). The year is taken
   * only when whitespace and "по" follow it.
   */
  function YearThenPo(s: string, e: nat): (r: Option<(nat, string)>)
    requires e <= |s|
    ensures r.Some? ==> r.value.0 <= |s| && HasLoosePo(s)
    ensures r.Some? ==> r.value.1 == "" || (|r.value.1| == 4 && AllDigits(r.value.1))
  {
    var y := SpacesEnd(s, e);
    var withYear := y > e && DigitsAt(s, y, 4) && SpacesEnd(s, y + 4) > y + 4 && StartsAt(s, SpacesEnd(s, y + 4), "по");
    var p := if withYear then SpacesEnd(s, y + 4) else y;
    if y == e || !StartsAt(s, p, "по") || SpacesEnd(s, p + 2) == p + 2 then None
    else
      assert LoosePoAt(s, p);
      if withYear then
        DigitsAtSlice(s, y, 4);
        Some((SpacesEnd(s, p + 2), s[y..y + 4]))
      else Some((SpacesEnd(s, p + 2), ""))
  }

  /**
   * `с\s+(\d{1,2})\s+(\w+)(?:\s+(\d{4}))?\s+по\s+(\d{1,2})\s+(\w+)(?:\s+(\d{4}))?`
   * at index `i`.
   */
  function ConcreteAt(s: string, i: nat): (r: Option<ConcreteMatch>)
    requires i <= |s|
    ensures r.Some? ==> WellFormedConcrete(r.value)
    ensures r.Some? ==> HasLoosePo(s)
  {
    if i >= |s| || s[i] != 'с' || SpacesEnd(s, i + 1) == i + 1 then None else
    var first := DayMonthAt(s, SpacesEnd(s, i + 1));
    if first.None? then None else
    var po := YearThenPo(s, first.value.end);
    if po.None? then None else
    var second := DayMonthAt(s, po.value.0);
    if second.None? then None
    else Some(ConcreteMatch(first.value.day, first.value.month, po.value.1,
                            second.value.day, second.value.month, TrailingYear(s, second.value.end)))
  }

  /** The leftmost concrete-range match at or after `i` (`re.search`). */
  function FindConcrete(s: string, i: nat): (r: Option<ConcreteMatch>)
    requires i <= |s|
    ensures r.Some? ==> WellFormedConcrete(r.value)
  {
    var m := ConcreteMatcher(s);
    LeftmostFirst(m, i, |s|);
    var r := Leftmost(m, i, |s|);
    assert r.Some? ==> WellFormedConcrete(r.value) by {
      if r.Some? {
        var j :| i <= j < |s| && r == m(j) && forall k | i <= k < j :: m(k).None?;
        ConcreteMatcherAt(s, j);
      }
    }
    r
  }

  /** The concrete-range match at each index of `s`, and none past its end. */
  function ConcreteMatcher(s: string): nat -> Option<ConcreteMatch> {
    (j: nat) => if j <= |s| then ConcreteAt(s, j) else None
  }

  lemma ConcreteMatcherAt(s: string, j: nat)
    requires j <= |s|
    ensures ConcreteMatcher(s)(j) == ConcreteAt(s, j)
  {
  }

  /** `FindConcrete` finds the match at the least index from `i` on, and none only when no index has one. */
  lemma FindConcreteLeftmost(s: string, i: nat)
    requires i <= |s|
    ensures var r := FindConcrete(s, i);
      r.Some? ==> exists j | i <= j < |s| :: (r == ConcreteAt(s, j)
        && forall k | i <= k < j :: ConcreteAt(s, k).None?)
    ensures FindConcrete(s, i).None? ==> forall j | i <= j <= |s| :: ConcreteAt(s, j).None?
  {
    var m := ConcreteMatcher(s);
    LeftmostFirst(m, i, |s|);
    var r := Leftmost(m, i, |s|);
    if r.Some? {
      var j :| i <= j < |s| && r == m(j) && forall k | i <= k < j :: m(k).None?;
      ConcreteMatcherAt(s, j);
      forall k | i <= k < j
        ensures ConcreteAt(s, k).None?
      {
        ConcreteMatcherAt(s, k);
      }
    } else {
      forall j | i <= j <= |s|
        ensures ConcreteAt(s, j).None?
      {
        ConcreteMatcherAt(s, j);
      }
    }
  }

  /**
   * The years of a concrete range: omitted years default to `now`'s; only
   * when the end year is omitted and the end month comes before the start
   * month does the end year become the start year plus one.
   */
  function ConcreteYears(startYear: Option<int>, endYear: Option<int>, sm: int, em: int, nowYear: int): (r: (int, int))
    ensures r.0 == (if startYear.Some? then startYear.value else nowYear)
    ensures endYear.Some? ==> r.1 == endYear.value
    ensures endYear.None? ==> r.1 == if em < sm then r.0 + 1 else nowYear
  {
    var sy := if startYear.Some? then startYear.value else nowYear;
    var ey := if endYear.Some? then endYear.value else nowYear;
    (sy, if endYear.None? && em < sm then sy + 1 else ey)
  }

  /**
   * `_parse_concrete_period`: both dates are built with `datetime`, which
   * validates them; an invalid day or month yields no dates and an
   * explanation naming the inputs, never an adjusted date.
   */
  function ConcretePeriod(s: string, now: Date): (r: Outcome)
    requires Valid(now)
    ensures !r.Raised?
    ensures r.Dates? ==> r.note.ConcreteRange?
  {
    match FindConcrete(s, 0)
    case None => NoDates(Silent)
    case Some(c) =>
      if LowerStr(c.startMonth) in MONTHS_RU && LowerStr(c.endMonth) in MONTHS_RU then
        var sm, em := MONTHS_RU[LowerStr(c.startMonth)], MONTHS_RU[LowerStr(c.endMonth)];
        var (sy, ey) := ConcreteYears(if c.startYear != "" then Some(ParseNat(c.startYear)) else None,
                                      if c.endYear != "" then Some(ParseNat(c.endYear)) else None, sm, em, now.year);
        ConcreteDates(sy, sm, ParseNat(c.startDay), ey, em, ParseNat(c.endDay), c)
      else NoDates(Silent)
  }

  /** The `try` block of `_parse_concrete_period`: both dates valid, or the `ValueError` explanation. */
  function ConcreteDates(sy: int, sm: int, sd: int, ey: int, em: int, ed: int, c: ConcreteMatch): (r: Outcome)
    ensures r.Dates? <==> Valid(Date(sy, sm, sd)) && Valid(Date(ey, em, ed))
    ensures r.Dates? ==> (r.start == Iso(Date(sy, sm, sd)) && r.end == Iso(Date(ey, em, ed))
       && r.note == ConcreteRange(c.startDay, c.startMonth, sy, c.endDay, c.endMonth, ey))
    ensures !r.Dates? ==> r == NoDates(InvalidDates(c.startDay, c.startMonth, c.endDay, c.endMonth))
  {
    match (MakeDate(sy, sm, sd), MakeDate(ey, em, ed))
    case (Some(a), Some(b)) => Dates(Iso(a), Iso(b), ConcreteRange(c.startDay, c.startMonth, sy, c.endDay, c.endMonth, ey))
    case _ => NoDates(InvalidDates(c.startDay, c.startMonth, c.endDay, c.endMonth))
  }

  // ---------------------------------------------------------------------
  // The cascade
  // ---------------------------------------------------------------------

  /** A recogniser's answer ends the cascade when it has dates or raised (`if result[0]:`). */
  predicate Final(o: Outcome) {
    o.Dates? || o.Raised?
  }

  /** `DateParser.parse_period(text)` with `today` read as `now`. */
  function ParsePeriod(text: string, now: Date): Outcome
    requires Valid(now)
  {
    Interpret(Normalise(text), now)
  }

  /** Lines 62-101 on the normalised text `t`: ISO dates first, then the fixed phrases, then the recognisers. */
  function Interpret(t: string, now: Date): Outcome
    requires Valid(now)
  {
    if HasIsoDate(t) then StandardDates(FindIsoDates(t, 0))
    else
      match FindKeyword(t)
      case Some(k) => KeywordPeriod(k, now)
      case None => Recognisers(t, now)
  }

  function FindKeyword(t: string): Option<Keyword> {
    FirstMatching(SPECIAL_ORDER, k => KeywordMatches(k, t))
  }

  /** Lines 83-101: each recogniser in turn until one has dates or raises. */
  function Recognisers(t: string, now: Date): Outcome
    requires Valid(now)
  {
    var month := MonthPeriod(t, now);
    if Final(month) then month else
    var quarter := SpecificQuarter(t, now);
    if Final(quarter) then quarter else
    var last := LastPeriod(t, now);
    if Final(last) then last else
    var concrete := ConcretePeriod(t, now);
    if Final(concrete) then concrete else
    NoDates(Unrecognised(t))
  }

  // ---------------------------------------------------------------------
  // What the cascade guarantees
  // ---------------------------------------------------------------------

  /** A formatted span runs forward when its dates do. */
  lemma SpanOrdered(span: Option<Span>, note: Note, error: PyError)
    requires span.Some? ==> (ValidSpan(span.value)
      && (TupleLe(span.value.start, span.value.end) || Ordinal(span.value.start) <= Ordinal(span.value.end)))
    ensures var r := FromSpan(span, note, error); r.Dates? ==> LexLe(r.start, r.end)
  {
    if span.Some? {
      OrdinalOrder(span.value.start, span.value.end);
      IsoOrder(span.value.start, span.value.end);
    }
  }

  /** Every fixed phrase yields a period whose start is not after its end. */
  lemma KeywordPeriodOrdered(k: Keyword, now: Date)
    requires Valid(now)
    ensures var r := KeywordPeriod(k, now); r.Dates? ==> LexLe(r.start, r.end)
  {
    var note := Special(k);
    match k
    case Today => IsoOrder(now, now);
    case Yesterday => SpanOrdered(DaySpan(AddDays(now, -1)), note, OverflowError);
    case DayBeforeYesterday => SpanOrdered(DaySpan(AddDays(now, -2)), note, OverflowError);
    case ThisWeek => SpanOrdered(CurrentWeek(now), note, OverflowError);
    case LastWeek => SpanOrdered(PreviousWeek(now), note, OverflowError);
    case ThisMonth => SpanOrdered(Some(CurrentMonth(now)), note, ValueError);
    case LastMonth => SpanOrdered(PreviousMonth(now), note, ValueError);
    case ThisQuarter => SpanOrdered(Some(CurrentQuarter(now)), note, ValueError);
    case LastQuarter => SpanOrdered(PreviousQuarter(now), note, ValueError);
    case ThisYear => SpanOrdered(Some(CurrentYear(now)), note, ValueError);
    case LastYear => SpanOrdered(PreviousYear(now), note, ValueError);
  }

  /** A month or month range runs forward. */
  lemma MonthPeriodOrdered(s: string, now: Date)
    requires Valid(now)
    ensures var r := MonthPeriod(s, now); r.Dates? ==> LexLe(r.start, r.end)
  {
    TablesInRange();
    var range := FindMonthRange(s, 0);
    if range.Some? && LowerStr(range.value.startName) in MONTHS_RU && LowerStr(range.value.endName) in MONTHS_RU {
      var m := range.value;
      var sm, em := MONTHS_RU[LowerStr(m.startName)], MONTHS_RU[LowerStr(m.endName)];
      var year := if m.year != "" then ParseNatBounded(m.year) else now.year;
      SpanOrdered(MonthRangeSpan(year, sm, em), MonthRangeOf(m.startName, year, m.endName, if em < sm then year + 1 else year), ValueError);
    } else {
      match FindMonthWord(s, 0)
      case Some((name, digits)) =>
        var year := if digits != "" then ParseNatBounded(digits) else now.year;
        SpanOrdered(MonthSpan(year, MONTHS_RU[LowerStr(name)]), MonthOf(name, year), ValueError);
      case None =>
    }
  }

  /** A named quarter runs forward. */
  lemma SpecificQuarterOrdered(s: string, now: Date)
    requires Valid(now)
    ensures var r := SpecificQuarter(s, now); r.Dates? ==> LexLe(r.start, r.end)
  {
    TablesInRange();
    var withYear := FindQuarter(s, 0, true);
    var bare := FindQuarter(s, 0, false);
    if Settles(withYear) {
      var q := QUARTER_NUMBERS[LowerStr(withYear.value.0)];
      var year := ParseNatBounded(withYear.value.1);
      SpanOrdered(QuarterSpan(q, year), QuarterOf(q, year), ValueError);
    } else if Settles(bare) {
      var q := QUARTER_NUMBERS[LowerStr(bare.value.0)];
      SpanOrdered(QuarterSpan(q, now.year), QuarterOf(q, now.year), ValueError);
    }
  }

  /**
   * A named quarter is the one its designator names in `QUARTER_NUMBERS`,
   * of the year the phrase gives or, when only the pattern without a year
   * settles it, of `now`'s year; it covers that quarter's three months.
   * Nothing is found exactly when neither pattern settles, and only the
   * year 0000 makes it raise.
   */
  lemma SpecificQuarterDates(s: string, now: Date)
    requires Valid(now)
    ensures var r := SpecificQuarter(s, now);
      r.Dates? ==> (r.note.QuarterOf? && 1 <= r.note.quarter <= 4 && 1 <= r.note.year <= MAX_YEAR
        && r.start == Iso(Date(r.note.year, 3 * r.note.quarter - 2, 1))
        && r.end == Iso(Date(r.note.year, 3 * r.note.quarter, DaysInMonth(r.note.year, 3 * r.note.quarter))))
    ensures var r := SpecificQuarter(s, now); var y, b := FindQuarter(s, 0, true), FindQuarter(s, 0, false);
      r.Dates? ==> if Settles(y)
        then r.note == QuarterOf(QUARTER_NUMBERS[LowerStr(y.value.0)], ParseNat(y.value.1))
        else Settles(b) && r.note == QuarterOf(QUARTER_NUMBERS[LowerStr(b.value.0)], now.year)
    ensures var r := SpecificQuarter(s, now); var y, b := FindQuarter(s, 0, true), FindQuarter(s, 0, false);
      (r.NoDates? <==> !Settles(y) && !Settles(b)) && (r.NoDates? ==> r.note == Silent)
    ensures var r := SpecificQuarter(s, now); var y := FindQuarter(s, 0, true);
      (r.Raised? <==> Settles(y) && ParseNat(y.value.1) == 0) && (r.Raised? ==> r.error == ValueError)
  {
    var y, b := FindQuarter(s, 0, true), FindQuarter(s, 0, false);
    assert SpecificQuarter(s, now) == QuarterChoice(y, b, now);
    QuarterChoiceDates(y, b, now);
  }

  /** `SpecificQuarterDates` for the captures of the two searches. */
  lemma QuarterChoiceDates(y: Option<(string, string)>, b: Option<(string, string)>, now: Date)
    requires Valid(now)
    requires y.Some? ==> |y.value.1| == 4 && AllDigits(y.value.1)
    ensures var r := QuarterChoice(y, b, now);
      r.Dates? ==> (r.note.QuarterOf? && 1 <= r.note.quarter <= 4 && 1 <= r.note.year <= MAX_YEAR
        && r.start == Iso(Date(r.note.year, 3 * r.note.quarter - 2, 1))
        && r.end == Iso(Date(r.note.year, 3 * r.note.quarter, DaysInMonth(r.note.year, 3 * r.note.quarter))))
    ensures var r := QuarterChoice(y, b, now);
      r.Dates? ==> if Settles(y)
        then r.note == QuarterOf(QUARTER_NUMBERS[LowerStr(y.value.0)], ParseNat(y.value.1))
        else Settles(b) && r.note == QuarterOf(QUARTER_NUMBERS[LowerStr(b.value.0)], now.year)
    ensures var r := QuarterChoice(y, b, now);
      (r.NoDates? <==> !Settles(y) && !Settles(b)) && (r.NoDates? ==> r.note == Silent)
    ensures var r := QuarterChoice(y, b, now);
      (r.Raised? <==> Settles(y) && ParseNat(y.value.1) == 0) && (r.Raised? ==> r.error == ValueError)
  {
    TablesInRange();
    if Settles(y) {
      QuarterOutcome(QUARTER_NUMBERS[LowerStr(y.value.0)], ParseNatBounded(y.value.1));
    } else if Settles(b) {
      QuarterOutcome(QUARTER_NUMBERS[LowerStr(b.value.0)], now.year);
    }
  }

  /** The answer for quarter `q` of `year`: its three months, or an error for a year before 1. */
  lemma QuarterOutcome(q: int, year: int)
    requires 1 <= q <= 4 && year <= MAX_YEAR
    ensures var r := FromSpan(QuarterSpan(q, year), QuarterOf(q, year), ValueError);
      (r.Dates? <==> 1 <= year) && (r.Raised? <==> year < 1)
      && (r.Dates? ==> (r.note == QuarterOf(q, year)
        && r.start == Iso(Date(year, 3 * q - 2, 1)) && r.end == Iso(Date(year, 3 * q, DaysInMonth(year, 3 * q)))))
  {
  }

  /**
   * A single month covers that month from its first to its last day; a
   * month range runs from the first day of its start month to the last day
   * of its end month, in the next year when the end month comes earlier.
   */
  lemma MonthPeriodDates(s: string, now: Date)
    requires Valid(now)
    ensures var r := MonthPeriod(s, now);
      r.Dates? && r.note.MonthOf? ==> (LowerStr(r.note.name) in MONTHS_RU && 1 <= r.note.year <= MAX_YEAR
        && var m := MONTHS_RU[LowerStr(r.note.name)];
        1 <= m <= 12 && r.start == Iso(Date(r.note.year, m, 1)) && r.end == Iso(Date(r.note.year, m, DaysInMonth(r.note.year, m))))
    ensures var r := MonthPeriod(s, now);
      r.Dates? && r.note.MonthRangeOf? ==> (LowerStr(r.note.startMonth) in MONTHS_RU && LowerStr(r.note.endMonth) in MONTHS_RU
        && var sm, em := MONTHS_RU[LowerStr(r.note.startMonth)], MONTHS_RU[LowerStr(r.note.endMonth)];
        1 <= sm <= 12 && 1 <= em <= 12 && 1 <= r.note.year && r.note.endYear <= MAX_YEAR
        && r.note.endYear == (if em < sm then r.note.year + 1 else r.note.year)
        && r.start == Iso(Date(r.note.year, sm, 1)) && r.end == Iso(Date(r.note.endYear, em, DaysInMonth(r.note.endYear, em))))
    ensures var r := MonthPeriod(s, now); r.Dates? ==> r.note.MonthOf? || r.note.MonthRangeOf?
  {
    TablesInRange();
  }

  /**
   * The month period is read off the captures: a range whose two names are
   * months wins over a single month word; the single month is the name and
   * year of the first month word found, and either takes `now`'s year when
   * the phrase gives none. Nothing is found only when there is no month
   * word, and a month word with no range always gives dates or an error.
   */
  lemma MonthPeriodCaptures(s: string, now: Date)
    requires Valid(now)
    ensures var r := MonthPeriod(s, now); var m := FindMonthRange(s, 0);
      m.Some? && LowerStr(m.value.startName) in MONTHS_RU && LowerStr(m.value.endName) in MONTHS_RU ==>
        !r.NoDates? && (r.Dates? ==> (r.note.MonthRangeOf?
          && r.note.startMonth == m.value.startName && r.note.endMonth == m.value.endName
          && r.note.year == YearOrNow(m.value.year, now)))
    ensures var r := MonthPeriod(s, now); var w := FindMonthWord(s, 0);
      r.Dates? && r.note.MonthOf? ==> w.Some? && r.note.name == w.value.0 && r.note.year == YearOrNow(w.value.1, now)
    ensures var r := MonthPeriod(s, now);
      (r.NoDates? ==> r.note == Silent && FindMonthWord(s, 0).None?)
      && (FindMonthWord(s, 0).None? && FindMonthRange(s, 0).None? ==> r.NoDates?)
      && (FindMonthWord(s, 0).Some? ==> !r.NoDates?)
    ensures var r := MonthPeriod(s, now); r.Raised? ==> r.error == ValueError
  {
    TablesInRange();
    var range := FindMonthRange(s, 0);
    if !(range.Some? && LowerStr(range.value.startName) in MONTHS_RU && LowerStr(range.value.endName) in MONTHS_RU) {
      match FindMonthWord(s, 0)
      case Some((name, digits)) =>
        var year := YearOrNow(digits, now);
        assert MonthPeriod(s, now) == FromSpan(MonthSpan(year, MONTHS_RU[LowerStr(name)]), MonthOf(name, year), ValueError);
      case None =>
    }
  }

  /**
   * Last week is this week moved back by exactly seven days, wherever both
   * exist (in the last days of 9999 this week's Sunday overflows).
   */
  lemma LastWeekIsThisWeekShifted(now: Date)
    requires Valid(now)
    ensures PreviousWeek(now).Some? && CurrentWeek(now).Some? ==>
      var p, c := PreviousWeek(now).value, CurrentWeek(now).value;
      Ordinal(p.start) + 7 == Ordinal(c.start) && Ordinal(p.end) + 7 == Ordinal(c.end)
  {
    var p, c := PreviousWeek(now), CurrentWeek(now);
    if p.Some? && c.Some? {
      var o := Ordinal(now) - Weekday(now);
      assert Ordinal(p.value.start) + 7 == o;
      assert Weekday(c.value.start) == 0 && Ordinal(c.value.start) <= Ordinal(now) <= Ordinal(c.value.start) + 6;
      assert Ordinal(c.value.start) == o;
    }
  }

  /**
   * "последние N ..." runs forward unless N is 0 days or 0 weeks, where the
   * start is the day after `now`.
   */
  lemma LastPeriodOrdered(s: string, now: Date)
    requires Valid(now)
    ensures var r := LastPeriod(s, now);
      r.Dates? ==> r.note.LastCount? && (LexLe(r.start, r.end) <==> r.note.count > 0 || r.note.unit == Months)
  {
    OrdinalBounds(now);
    var r := LastPeriod(s, now);
    if r.Dates? {
      var u, count := r.note.unit, r.note.count;
      var start := LastStart(u, count, now).value;
      assert r.start == Iso(start) && r.end == Iso(now);
      IsoOrder(start, now);
    }
  }

  /** The word "по" with whitespace on both sides, as `\s+по\s+` needs it, at index `j`. */
  predicate LoosePoAt(s: string, j: int) {
    1 <= j && j + 3 <= |s| && IsSpace(s[j - 1]) && s[j] == 'п' && s[j + 1] == 'о' && IsSpace(s[j + 2])
  }

  predicate HasLoosePo(s: string) {
    exists j | 0 <= j <= |s| :: LoosePoAt(s, j)
  }

  /** A character where no word starts is kept. */
  lemma KeptWhereNoWordStarts(s: string, i: nat)
    requires i < |s| && !WordStart(s, i)
    ensures DropStopwords(s, i) == [s[i]] + DropStopwords(s, i + 1)
  {
  }

  /** What follows a dropped stopword starts with a non-word character, if anything. */
  lemma AfterStopword(s: string, p: nat)
    requires WordStart(s, p) && s[p..WordEnd(s, p)] in STOPWORDS
    ensures var o := DropStopwords(s, p); o == [] || !IsWordChar(o[0])
  {
    var e := WordEnd(s, p);
    if e < |s| {
      KeptWhereNoWordStarts(s, e);
    }
  }

  /** A word "по" that was not dropped as a stopword is not followed by whitespace. */
  lemma KeptPoRunsOn(s: string, p: nat)
    requires p + 2 < |s| && s[p] == 'п' && s[p + 1] == 'о'
    requires s[p..WordEnd(s, p)] !in STOPWORDS
    ensures !IsSpace(s[p + 2])
  {
    var e := WordEnd(s, p);
    assert s[p..p + 2] == "по";
    assert IsSpace(s[p + 2]) ==> e == p + 2;
  }

  /** Scanning from the start of a word or from a non-word character never emits "по" plus whitespace first. */
  lemma DroppedHeadNotPo(s: string, p: nat)
    requires p <= |s| && (p == 0 || !IsWordChar(s[p - 1]))
    ensures var o := DropStopwords(s, p); !(|o| >= 3 && o[0] == 'п' && o[1] == 'о' && IsSpace(o[2]))
  {
    if p < |s| {
      if WordStart(s, p) && s[p..WordEnd(s, p)] in STOPWORDS {
        AfterStopword(s, p);
      } else if s[p] == 'п' && p + 1 < |s| {
        KeptWhereNoWordStarts(s, p + 1);
        if s[p + 1] == 'о' && p + 2 < |s| {
          KeptPoRunsOn(s, p);
          KeptWhereNoWordStarts(s, p + 2);
        }
      }
    }
  }

  /** Stopword removal never leaves "по" standing alone between whitespace: a lone "по" is itself a stopword. */
  lemma {:induction false} DropStopwordsNoLoosePo(s: string, i: nat)
    requires i <= |s|
    ensures !HasLoosePo(DropStopwords(s, i))
    decreases |s| - i
  {
    if i < |s| {
      if WordStart(s, i) && s[i..WordEnd(s, i)] in STOPWORDS {
        DropStopwordsNoLoosePo(s, WordEnd(s, i));
      } else {
        DropStopwordsNoLoosePo(s, i + 1);
        var o := DropStopwords(s, i);
        var rest := DropStopwords(s, i + 1);
        assert o == [s[i]] + rest;
        if IsSpace(s[i]) {
          DroppedHeadNotPo(s, i + 1);
        }
        forall j | 0 <= j <= |o|
          ensures !LoosePoAt(o, j)
        {
          if j >= 2 && LoosePoAt(o, j) {
            assert LoosePoAt(rest, j - 1);
          }
        }
      }
    }
  }

  /** Taking a slice cannot create a lone "по". */
  lemma SliceNoLoosePo(s: string, a: nat, b: nat)
    requires a <= b <= |s| && !HasLoosePo(s)
    ensures !HasLoosePo(s[a..b])
  {
    forall j | 0 <= j <= b - a
      ensures !LoosePoAt(s[a..b], j)
    {
      if LoosePoAt(s[a..b], j) {
        assert LoosePoAt(s, a + j);
      }
    }
  }

  /** Normalised text never holds "по" between whitespace. */
  lemma NormaliseNoLoosePo(text: string)
    ensures !HasLoosePo(Normalise(text))
  {
    var o := DropStopwords(Strip(LowerStr(text)), 0);
    DropStopwordsNoLoosePo(Strip(LowerStr(text)), 0);
    var a := SpacesEnd(o, 0);
    SliceNoLoosePo(o, a, TrimEnd(o, a, |o|));
  }

  /** Neither range pattern can be found in a text without a lone "по". */
  lemma RangesNeedLoosePo(s: string, i: nat)
    requires i <= |s|
    ensures FindMonthRange(s, i).Some? ==> HasLoosePo(s)
    ensures FindConcrete(s, i).Some? ==> HasLoosePo(s)
  {
    FindMonthRangeLeftmost(s, i);
    FindConcreteLeftmost(s, i);
  }

  /** Without a lone "по", the recognisers never report a range of months or a day-to-day range. */
  lemma RecognisersSkipRanges(t: string, now: Date)
    requires Valid(now) && !HasLoosePo(t)
    ensures var r := Recognisers(t, now); r.Dates? ==> !r.note.MonthRangeOf? && !r.note.ConcreteRange?
    ensures var r := Recognisers(t, now); r.NoDates? ==> r.note == Unrecognised(t)
  {
    RangesNeedLoosePo(t, 0);
    assert FindMonthRange(t, 0).None? && FindConcrete(t, 0).None?;
    var month := MonthPeriod(t, now);
    assert month.Dates? ==> month.note.MonthOf?;
    assert ConcretePeriod(t, now) == NoDates(Silent);
  }

  /**
   * Because "с" and "по" are stopwords, the month-range and concrete-range
   * recognisers never see their pattern: `parse_period` never reports a
   * range of months or a day-to-day range.
   */
  lemma RangesNeverReported(text: string, now: Date)
    requires Valid(now)
    ensures var r := ParsePeriod(text, now); r.Dates? ==> !r.note.MonthRangeOf? && !r.note.ConcreteRange?
  {
    var t := Normalise(text);
    InterpretSources(t, now);
    NormaliseNoLoosePo(text);
    RecognisersSkipRanges(t, now);
  }

  /** A dated answer comes from the ISO dates, from a fixed phrase, or from the recognisers. */
  lemma InterpretSources(t: string, now: Date)
    requires Valid(now)
    ensures var r := Interpret(t, now);
      r.Dates? ==> r.note == OneDay || r.note.StandardRange? || r.note.Special? || r == Recognisers(t, now)
  {
  }

  /** A phrase whose pattern matches is never passed over for a later one. */
  lemma FirstMatchingSkips(ks: seq<Keyword>, matches: Keyword -> bool, a: nat, b: nat)
    requires a < b < |ks| && matches(ks[a]) && ks[b] !in ks[..b]
    ensures FirstMatching(ks, matches) != Some(ks[b])
  {
  }

  /** Every text containing "позавчера" contains "вчера". */
  lemma DayBeforeYesterdayMatchesYesterday(t: string)
    requires KeywordMatches(DayBeforeYesterday, t)
    ensures KeywordMatches(Yesterday, t)
  {
    var i :| 0 <= i <= |t| && StartsAt(t, i, "позавчера");
    assert t[i + 4..i + 9] == t[i..i + 9][4..9] == "вчера";
    assert StartsAt(t, i + 4, "вчера");
  }

  /** "позавчера" contains "вчера", and "вчера" is tried first. */
  lemma DayBeforeYesterdayNeverChosen(t: string)
    ensures FindKeyword(t) != Some(DayBeforeYesterday)
  {
    var matches := k => KeywordMatches(k, t);
    if KeywordMatches(DayBeforeYesterday, t) {
      DayBeforeYesterdayMatchesYesterday(t);
      assert matches(SPECIAL_ORDER[1]);
      assert SPECIAL_ORDER[2] !in SPECIAL_ORDER[..2];
      FirstMatchingSkips(SPECIAL_ORDER, matches, 1, 2);
    } else {
      assert !matches(DayBeforeYesterday);
    }
  }

  /** The recognisers report only months, quarters, recent windows and day ranges. */
  lemma RecognisersNotes(t: string, now: Date)
    requires Valid(now)
    ensures var r := Recognisers(t, now); r.Dates? ==> !r.note.Special?
  {
  }

  /** The day before yesterday is never what `parse_period` answers. */
  lemma DayBeforeYesterdayNeverReported(text: string, now: Date)
    requires Valid(now)
    ensures var r := ParsePeriod(text, now); r.Dates? ==> r.note != Special(DayBeforeYesterday)
  {
    var t := Normalise(text);
    assert ParsePeriod(text, now) == Interpret(t, now);
    DayBeforeYesterdayNeverChosen(t);
    if !HasIsoDate(t) && FindKeyword(t).None? {
      RecognisersNotes(t, now);
    }
  }

  /** The recognisers' periods run forward, except "последние 0 дней" and "последние 0 недель". */
  lemma RecognisersOrdered(t: string, now: Date)
    requires Valid(now) && !HasLoosePo(t)
    ensures var r := Recognisers(t, now);
      r.Dates? && !(r.note.LastCount? && r.note.count == 0 && r.note.unit != Months) ==> LexLe(r.start, r.end)
  {
    MonthPeriodOrdered(t, now);
    SpecificQuarterOrdered(t, now);
    LastPeriodOrdered(t, now);
    RecognisersSkipRanges(t, now);
  }

  /**
   * Every period `parse_period` reports runs forward (start `<=` end as
   * strings, which for formatted dates is calendar order), except
   * "последние 0 дней" and "последние 0 недель".
   */
  lemma ParsePeriodOrdered(text: string, now: Date)
    requires Valid(now)
    ensures var r := ParsePeriod(text, now);
      r.Dates? && !(r.note.LastCount? && r.note.count == 0 && r.note.unit != Months) ==> LexLe(r.start, r.end)
  {
    var t := Normalise(text);
    NormaliseNoLoosePo(text);
    if HasIsoDate(t) {
      var dates := FindIsoDates(t, 0);
      CmpProperties(dates[0], dates[0]);
    } else {
      match FindKeyword(t)
      case Some(k) => KeywordPeriodOrdered(k, now);
      case None => RecognisersOrdered(t, now);
    }
  }

  /**
   * `parse_period` answers without dates only when nothing was recognised:
   * the explanation then quotes the normalised text. An invalid day-month
   * range does not surface; the cascade moves past it.
   */
  lemma NoDatesMeansUnrecognised(text: string, now: Date)
    requires Valid(now)
    ensures var r := ParsePeriod(text, now); r.NoDates? ==> r.note == Unrecognised(Normalise(text))
  {
    var t := Normalise(text);
    InterpretNoDates(t, now);
    RecognisersNoDates(t, now);
  }

  /** Neither the ISO dates nor a fixed phrase answer without dates: such an answer is the recognisers'. */
  lemma InterpretNoDates(t: string, now: Date)
    requires Valid(now)
    ensures Interpret(t, now).NoDates? ==> Interpret(t, now) == Recognisers(t, now)
  {
    if HasIsoDate(t) {
      var dates := FindIsoDates(t, 0);
      assert dates != [];
    }
  }

  /** The recognisers answer without dates only through their final fall-through. */
  lemma RecognisersNoDates(t: string, now: Date)
    requires Valid(now)
    ensures var r := Recognisers(t, now); r.NoDates? ==> r.note == Unrecognised(t)
  {
  }

  /** A text holding an ISO date is answered from its ISO dates alone, whatever else it says. */
  lemma IsoDatesTakePrecedence(text: string, now: Date)
    requires Valid(now)
    ensures var t := Normalise(text); var r := ParsePeriod(text, now);
      HasIsoDate(t) ==> (r.Dates? && IsoShaped(r.start) && IsoShaped(r.end) && LexLe(r.start, r.end)
        && (r.note == OneDay || r.note.StandardRange?))
    ensures var t := Normalise(text); HasIsoDate(t) ==> ParsePeriod(text, now) == StandardDates(FindIsoDates(t, 0))
  {
    var t := Normalise(text);
    if HasIsoDate(t) {
      var dates := FindIsoDates(t, 0);
      CmpProperties(dates[0], dates[0]);
    }
  }

  /** `FindIsoDates` lists the leftmost ISO date first and the leftmost one after it second. */
  lemma FirstTwoIsoDates(t: string)
    ensures var f := FirstIso(t, 0); var dates := FindIsoDates(t, 0);
      f.Some? ==> (f.value + 10 <= |t| && |dates| >= 1 && dates[0] == t[f.value..f.value + 10]
        && var g := FirstIso(t, f.value + 10);
        (g.None? ==> |dates| == 1)
        && (g.Some? ==> g.value + 10 <= |t| && |dates| >= 2 && dates[1] == t[g.value..g.value + 10]))
  {
    var f := FirstIso(t, 0);
    if f.Some? {
      var j := f.value;
      FindIsoDatesLeftmost(t, 0);
      FindIsoDatesLeftmost(t, j + 10);
    }
  }

  /** A text that is one ISO date once normalised is the one-day period of that date. */
  lemma OneIsoDate(text: string, now: Date)
    requires Valid(now) && IsoShaped(Normalise(text))
    ensures ParsePeriod(text, now) == Dates(Normalise(text), Normalise(text), OneDay)
  {
    var t := Normalise(text);
    assert FirstIsoAt(t, 0, 0);
    assert FirstIso(t, 0) == Some(0);
    assert FirstIso(t, 10).None?;
    IsoDatesTakePrecedence(text, now);
    FirstTwoIsoDates(t);
    assert t[0..10] == t;
  }
}
