/**
 * The pure parts of excel_generator.py: the report file names, the column
 * width table, and the row arithmetic of `generate_timesheet_report`
 * (where the header, the worklog rows, the totals row and the per-project
 * statistics rows go, and how many records each project has).
 */
module Report {
  import opened Optional
  import opened Text

  /** A project as the report receives it: `{'name': ..., 'key': ...}`. */
  datatype Project = Project(name: string, key: string)

  /** One worklog dictionary; hours stay the text Jira gave. */
  datatype Worklog = Worklog(date: string, executor: string, hours: string,
                             description: string, projectTask: string, project: string)

  // ---------------------------------------------------------------------
  // File names
  // ---------------------------------------------------------------------

  /** `c.isalnum() or c in (' ', '-', '_')`. */
  predicate Allowed(c: char) {
    IsAlnum(c) || c == ' ' || c == '-' || c == '_'
  }

  /** What a sanitised name may hold: allowed characters other than the space. */
  predicate SafeChar(c: char) {
    IsAlnum(c) || c == '-' || c == '_'
  }

  predicate Safe(s: string) {
    forall k | 0 <= k < |s| :: SafeChar(s[k])
  }

  /** `"".join(c for c in name if allowed(c))`. */
  function KeepAllowed(name: string): (r: string)
    ensures forall k | 0 <= k < |r| :: Allowed(r[k])
    ensures |r| <= |name|
  {
    if name == [] then []
    else if Allowed(name[0]) then [name[0]] + KeepAllowed(name[1..])
    else KeepAllowed(name[1..])
  }

  /** `s.replace(' ', '_')`. */
  function SpacesToUnderscores(s: string): (r: string)
    ensures |r| == |s|
    ensures forall k | 0 <= k < |s| :: r[k] == if s[k] == ' ' then '_' else s[k]
  {
    seq(|s|, k requires 0 <= k < |s| => if s[k] == ' ' then '_' else s[k])
  }

  /** Lines 162-163: keep allowed characters, strip, then turn the inner spaces into underscores. */
  function Sanitise(name: string): (r: string)
    ensures Safe(r)
    ensures |r| <= |name|
  {
    var kept := KeepAllowed(name);
    var stripped := Strip(kept);
    assert forall k | 0 <= k < |stripped| :: Allowed(stripped[k]);
    SpacesToUnderscores(stripped)
  }

  /**
   * `KeepAllowed` is the filter on `Allowed`: it works piece by piece, and
   * keeps one character exactly when that character is allowed.
   */
  lemma {:induction false} KeepAllowedFilters(x: string, y: string)
    ensures KeepAllowed(x + y) == KeepAllowed(x) + KeepAllowed(y)
    ensures |x| == 1 ==> KeepAllowed(x) == if Allowed(x[0]) then x else []
  {
    if x != [] {
      assert (x + y)[1..] == x[1..] + y;
      KeepAllowedFilters(x[1..], y);
    } else {
      assert x + y == y;
    }
  }

  /** A name that is already safe passes through unchanged. */
  lemma {:induction false} KeepAllowedSafe(name: string)
    requires Safe(name)
    ensures KeepAllowed(name) == name
  {
    if name != [] {
      KeepAllowedSafe(name[1..]);
    }
  }

  /** A safe name is its own sanitised form. */
  lemma SafeSanitisesToItself(s: string)
    requires Safe(s)
    ensures Sanitise(s) == s
  {
    KeepAllowedSafe(s);
    SafeStripped(s);
    SafeHasNoSpaces(s);
  }

  /** Stripping leaves a safe name alone: it has no whitespace at either end. */
  lemma SafeStripped(s: string)
    requires Safe(s)
    ensures Strip(s) == s
  {
    assert SpacesEnd(s, 0) == 0;
    assert TrimEnd(s, 0, |s|) == |s|;
    assert s[0..|s|] == s;
  }

  /** Replacing spaces leaves a safe name alone. */
  lemma SafeHasNoSpaces(s: string)
    requires Safe(s)
    ensures SpacesToUnderscores(s) == s
  {
    var r := SpacesToUnderscores(s);
    assert forall k | 0 <= k < |s| :: r[k] == s[k];
  }

  /** Sanitising is idempotent, and a safe name is its own sanitised form. */
  lemma SanitiseIdempotent(name: string)
    ensures Safe(name) ==> Sanitise(name) == name
    ensures Sanitise(Sanitise(name)) == Sanitise(name)
  {
    if Safe(name) {
      SafeSanitisesToItself(name);
    }
    SafeSanitisesToItself(Sanitise(name));
  }

  /** No character of the name survives unless it is allowed. */
  lemma {:induction false} KeepAllowedOnlyBlank(name: string)
    requires forall k | 0 <= k < |name| :: name[k] == ' ' || !Allowed(name[k])
    ensures forall k | 0 <= k < |KeepAllowed(name)| :: KeepAllowed(name)[k] == ' '
  {
    if name != [] {
      KeepAllowedOnlyBlank(name[1..]);
    }
  }

  /**
   * Stripping comes before the replacement: a name with nothing but spaces
   * and disallowed characters gives the empty name, not underscores.
   */
  lemma BlankNameSanitisesToEmpty(name: string)
    requires forall k | 0 <= k < |name| :: name[k] == ' ' || !Allowed(name[k])
    ensures Sanitise(name) == ""
  {
    KeepAllowedOnlyBlank(name);
    var kept := KeepAllowed(name);
    assert SpacesEnd(kept, 0) == |kept|;
  }

  /**
   * Stripping comes before the replacement: a space in front of or after the
   * name leaves no underscore behind.
   */
  lemma SanitiseIgnoresOuterSpace(name: string)
    ensures Sanitise(" " + name) == Sanitise(name)
    ensures Sanitise(name + " ") == Sanitise(name)
  {
    KeepAllowedFilters(" ", name);
    KeepAllowedFilters(name, " ");
    StripSpaceBefore(KeepAllowed(name));
    StripSpaceAfter(KeepAllowed(name));
  }

  /** A space between two safe parts becomes an underscore. */
  lemma SanitiseInnerSpace(a: string, b: string)
    requires Safe(a) && Safe(b) && a != [] && b != []
    ensures Sanitise(a + " " + b) == a + "_" + b
  {
    var n := a + " " + b;
    KeepAllowedJoin(a, b);
    assert n[0] == a[0] && n[|n| - 1] == b[|b| - 1];
    StripUnchanged(n);
    SpaceBecomesUnderscore(a, b);
  }

  /** Both safe parts and the space between them are kept. */
  lemma KeepAllowedJoin(a: string, b: string)
    requires Safe(a) && Safe(b)
    ensures KeepAllowed(a + " " + b) == a + " " + b
  {
    KeepAllowedFilters(a, " " + b);
    KeepAllowedFilters(" ", b);
    KeepAllowedSafe(a);
    KeepAllowedSafe(b);
    assert a + (" " + b) == a + " " + b;
  }

  /** Replacing spaces in two safe parts joined by a space turns only that space into '_'. */
  lemma SpaceBecomesUnderscore(a: string, b: string)
    requires Safe(a) && Safe(b)
    ensures SpacesToUnderscores(a + " " + b) == a + "_" + b
  {
    var n := a + " " + b;
    var r := SpacesToUnderscores(n);
    var u := a + "_" + b;
    forall k | 0 <= k < |n|
      ensures r[k] == u[k]
    {
      if k < |a| {
        assert n[k] == a[k] && u[k] == a[k];
      } else if k > |a| {
        assert n[k] == b[k - |a| - 1] && u[k] == b[k - |a| - 1];
      }
    }
  }

  const FILE_PREFIX: string := "trudozatraty_"
  const SUMMARY_PREFIX: string := "trudozatraty_svodnyj_"
  const EXTENSION: string := ".xlsx"

  /** `generate_filename`. */
  function Filename(projectName: string, start: string, end: string): string {
    FILE_PREFIX + Sanitise(projectName) + "_" + start + "_" + end + EXTENSION
  }

  /** Characters a file name built from dates may hold. */
  predicate FileChar(c: char) {
    SafeChar(c) || c == '.'
  }

  /**
   * With dates made of digits and '-', such as the parser's `YYYY-MM-DD`
   * strings, the file name holds no space and nothing but letters, digits,
   * '-', '_' and '.'.
   */
  lemma FilenameHasNoSpaces(projectName: string, start: string, end: string)
    requires Safe(start) && Safe(end)
    ensures var f := Filename(projectName, start, end); forall k | 0 <= k < |f| :: FileChar(f[k])
  {
    var safe := Sanitise(projectName);
    NameFileChars(safe, start, end);
    assert Filename(projectName, start, end) == FILE_PREFIX + safe + "_" + start + "_" + end + EXTENSION;
  }

  /** Safe parts joined by '_' after the prefix, with the extension, give only file-name characters. */
  lemma NameFileChars(safe: string, start: string, end: string)
    requires Safe(safe) && Safe(start) && Safe(end)
    ensures var f := FILE_PREFIX + safe + "_" + start + "_" + end + EXTENSION; forall k | 0 <= k < |f| :: FileChar(f[k])
  {
    var parts := FILE_PREFIX + safe + "_" + start + "_" + end;
    var f := parts + EXTENSION;
    assert Safe(parts) by {
      assert Safe(FILE_PREFIX);
      Concat4Safe(FILE_PREFIX, safe, "_" + start, "_" + end);
      assert FILE_PREFIX + safe + "_" + start + "_" + end == FILE_PREFIX + safe + ("_" + start) + ("_" + end);
    }
    forall k | 0 <= k < |f|
      ensures FileChar(f[k])
    {
      if k < |parts| {
        assert f[k] == parts[k];
      } else {
        assert f[k] == EXTENSION[k - |parts|];
      }
    }
  }

  lemma Concat4Safe(a: string, b: string, c: string, d: string)
    requires Safe(a) && Safe(b) && Safe(c) && Safe(d)
    ensures Safe(a + b + c + d)
  {
    var s := a + b + c + d;
    forall k | 0 <= k < |s|
      ensures SafeChar(s[k])
    {
      if k < |a| {
        assert s[k] == a[k];
      } else if k < |a| + |b| {
        assert s[k] == b[k - |a|];
      } else if k < |a| + |b| + |c| {
        assert s[k] == c[k - |a| - |b|];
      } else {
        assert s[k] == d[k - |a| - |b| - |c|];
      }
    }
  }

  /** `"_".join(keys)`. */
  function JoinKeys(keys: seq<string>): string {
    if keys == [] then ""
    else if |keys| == 1 then keys[0]
    else keys[0] + "_" + JoinKeys(keys[1..])
  }

  /** `s.split('_')`. */
  function SplitUnderscore(s: string): (r: seq<string>)
    ensures |r| >= 1
    decreases |s|
  {
    if s == [] then [""]
    else
      var rest := SplitUnderscore(s[1..]);
      if s[0] == '_' then [""] + rest
      else [[s[0]] + rest[0]] + rest[1..]
  }

  /** Splitting a key without underscores, possibly followed by more text after an underscore. */
  lemma {:induction false} SplitKey(key: string, tail: seq<string>, rest: string)
    requires forall k | 0 <= k < |key| :: key[k] != '_'
    requires SplitUnderscore(rest) == tail
    ensures SplitUnderscore(key + "_" + rest) == [key] + tail
    ensures SplitUnderscore(key) == [key]
  {
    if key != [] {
      assert (key + "_" + rest)[1..] == key[1..] + "_" + rest;
      SplitKey(key[1..], tail, rest);
      assert [key[0]] + key[1..] == key;
    }
  }

  /** Keys without underscores can be read back from the joined middle part of a summary file name. */
  lemma {:induction false} JoinKeysSplits(keys: seq<string>)
    requires |keys| >= 1
    requires forall i, k | 0 <= i < |keys| && 0 <= k < |keys[i]| :: keys[i][k] != '_'
    ensures SplitUnderscore(JoinKeys(keys)) == keys
  {
    if |keys| == 1 {
      SplitKey(keys[0], [""], "");
    } else {
      JoinKeysSplits(keys[1..]);
      SplitKey(keys[0], keys[1..], JoinKeys(keys[1..]));
      assert [keys[0]] + keys[1..] == keys;
    }
  }

  function Keys(projects: seq<Project>): (r: seq<string>)
    ensures |r| == |projects| && forall i | 0 <= i < |r| :: r[i] == projects[i].key
  {
    seq(|projects|, i requires 0 <= i < |projects| => projects[i].key)
  }

  /** The middle part of a summary file name (lines 173-179). */
  function SummaryPart(projects: seq<Project>): string {
    if |projects| > 3 then NatToString(|projects|) + "_proektov" else JoinKeys(Keys(projects))
  }

  /** `generate_filename_for_multiple_projects`. */
  function FilenameForProjects(projects: seq<Project>, start: string, end: string): (r: string)
    ensures |projects| == 1 ==> r == Filename(projects[0].name, start, end)
    ensures |projects| > 3 ==> r == SUMMARY_PREFIX + NatToString(|projects|) + "_proektov_" + start + "_" + end + EXTENSION
    ensures |projects| != 1 && |projects| <= 3 ==> r == SUMMARY_PREFIX + JoinKeys(Keys(projects)) + "_" + start + "_" + end + EXTENSION
  {
    if |projects| == 1 then Filename(projects[0].name, start, end)
    else SUMMARY_PREFIX + SummaryPart(projects) + "_" + start + "_" + end + EXTENSION
  }

  /** The project count written before "_proektov" reads back as the number of projects. */
  lemma ProjectCountReadsBack(projects: seq<Project>)
    requires |projects| > 3
    ensures var part := SummaryPart(projects); var n := |part| - |"_proektov"|;
      n >= 1 && AllDigits(part[..n]) && ParseNat(part[..n]) == |projects|
  {
    var digits := NatToString(|projects|);
    assert SummaryPart(projects)[..|digits|] == digits;
    ParseNatToString(|projects|);
  }

  // ---------------------------------------------------------------------
  // Column widths and row layout
  // ---------------------------------------------------------------------

  /** `_get_column_width`: the width table for columns A..F, 15 for any other column. */
  function ColumnWidth(col: int): (w: int)
    ensures 1 <= col <= 6 ==> w == [20, 15, 10, 50, 25, 20][col - 1]
    ensures !(1 <= col <= 6) ==> w == 15
  {
    if col == 1 then 20
    else if col == 2 then 15
    else if col == 3 then 10
    else if col == 4 then 50
    else if col == 5 then 25
    else if col == 6 then 20
    else 15
  }

  /** Lines 98-100: the widths set on columns A..F. */
  method ColumnWidths() returns (widths: map<int, int>)
    ensures forall col :: col in widths <==> 1 <= col <= 6
    ensures forall col | col in widths :: widths[col] == ColumnWidth(col)
  {
    widths := map[];
    var col := 1;
    while col < 7
      invariant 1 <= col <= 7
      invariant forall c :: c in widths <==> 1 <= c < col
      invariant forall c | c in widths :: widths[c] == ColumnWidth(c)
    {
      widths := widths[col := ColumnWidth(col)];
      col := col + 1;
    }
  }

  /** The description column (D) is the widest and the hours column (C) the narrowest of all columns. */
  lemma ColumnWidthExtremes(col: int)
    ensures ColumnWidth(3) <= ColumnWidth(col) <= ColumnWidth(4)
    ensures ColumnWidth(col) == ColumnWidth(4) <==> col == 4
    ensures ColumnWidth(col) == ColumnWidth(3) <==> col == 3
  {
  }

  /** A summary over several projects (`projects and len(projects) > 1`). */
  predicate IsSummary(projects: seq<Project>) {
    |projects| > 1
  }

  /** Lines 55-63: the title takes row 1, a summary's project list row 2, then the column headers. */
  function HeaderRow(projects: seq<Project>): int {
    if IsSummary(projects) then 4 else 3
  }

  /** The project of each worklog, in order. */
  function ProjectsOf(worklogs: seq<Worklog>): (r: seq<string>)
    ensures |r| == |worklogs| && forall i | 0 <= i < |r| :: r[i] == worklogs[i].project
  {
    seq(|worklogs|, i requires 0 <= i < |worklogs| => worklogs[i].project)
  }

  /** The distinct names of `ps` in order of first occurrence, as a dict's keys keep them. */
  function Distinct(ps: seq<string>): (r: seq<string>)
    ensures forall x :: x in r <==> x in ps
    ensures NoDuplicates(r)
    ensures FirstOccurrenceOrder(r, ps)
  {
    if ps == [] then []
    else
      var init := ps[..|ps| - 1];
      var d := Distinct(init);
      var x := ps[|ps| - 1];
      assert forall y :: y in ps <==> y in init || y == x by {
        assert ps == init + [x];
      }
      DistinctOrderAppend(d, init, x);
      if x in d then d else d + [x]
  }

  /** Each name of `r` occurs in `ps` before any occurrence of the names after it in `r`. */
  predicate FirstOccurrenceOrder(r: seq<string>, ps: seq<string>) {
    forall i, j, k | 0 <= i < j < |r| && 0 <= k < |ps| && ps[k] == r[j] :: r[i] in ps[..k]
  }

  /** One more record keeps the order of first occurrences, with a new name last. */
  lemma DistinctOrderAppend(d: seq<string>, init: seq<string>, x: string)
    requires FirstOccurrenceOrder(d, init)
    requires forall y :: y in d <==> y in init
    ensures FirstOccurrenceOrder(if x in d then d else d + [x], init + [x])
  {
    var ps := init + [x];
    var r := if x in d then d else d + [x];
    forall i, j, k | 0 <= i < j < |r| && 0 <= k < |ps| && ps[k] == r[j]
      ensures r[i] in ps[..k]
    {
      assert ps[..k] == init[..k] || k == |init|;
      if k < |init| {
        assert ps[k] == init[k] && ps[..k] == init[..k];
      } else if j < |d| {
        var k' :| 0 <= k' < |init| && init[k'] == d[j];
        assert r[i] in init[..k'];
        assert init[..k'] <= ps[..k];
      } else {
        assert r[i] == d[i] && d[i] in init;
        assert ps[..k] == init;
      }
    }
  }

  predicate NoDuplicates(s: seq<string>) {
    forall i, j | 0 <= i < j < |s| :: s[i] != s[j]
  }

  /** How many of `ps` are `p`: the record count of project `p`. */
  function Count(ps: seq<string>, p: string): (n: nat)
    ensures n <= |ps|
    ensures n == 0 <==> p !in ps
  {
    if ps == [] then 0
    else
      var init := ps[..|ps| - 1];
      assert ps == init + [ps[|ps| - 1]];
      Count(init, p) + (if ps[|ps| - 1] == p then 1 else 0)
  }

  /** The record counts of the projects of `order`, summed. */
  function SumCounts(order: seq<string>, ps: seq<string>): nat {
    if order == [] then 0 else Count(ps, order[0]) + SumCounts(order[1..], ps)
  }

  /** One more record adds one to the sum when its project is listed once, and nothing when it is not listed. */
  lemma {:induction false} SumCountsAppendRecord(order: seq<string>, ps: seq<string>, x: string)
    requires NoDuplicates(order)
    ensures SumCounts(order, ps + [x]) == SumCounts(order, ps) + (if x in order then 1 else 0)
  {
    if order != [] {
      assert (ps + [x])[..|ps|] == ps;
      assert NoDuplicates(order[1..]);
      assert x in order[1..] ==> order[0] != x;
      SumCountsAppendRecord(order[1..], ps, x);
    }
  }

  /** Listing one more project adds its count to the sum. */
  lemma {:induction false} SumCountsAppendProject(order: seq<string>, ps: seq<string>, x: string)
    ensures SumCounts(order + [x], ps) == SumCounts(order, ps) + Count(ps, x)
  {
    if order == [] {
      assert [x][1..] == [];
    } else {
      assert (order + [x])[1..] == order[1..] + [x];
      SumCountsAppendProject(order[1..], ps, x);
    }
  }

  /** The distinct projects come in order of first appearance, growing by one record at a time. */
  lemma DistinctAppend(ps: seq<string>, x: string)
    ensures Distinct(ps + [x]) == if x in Distinct(ps) then Distinct(ps) else Distinct(ps) + [x]
    ensures forall p :: Count(ps + [x], p) == Count(ps, p) + (if p == x then 1 else 0)
  {
    assert (ps + [x])[..|ps|] == ps;
  }

  /** The per-project record counts sum to the number of worklogs. */
  lemma {:induction false} CountsSumToTotal(ps: seq<string>)
    ensures SumCounts(Distinct(ps), ps) == |ps|
  {
    if ps != [] {
      var init := ps[..|ps| - 1];
      var x := ps[|ps| - 1];
      assert ps == init + [x];
      CountsSumToTotal(init);
      DistinctAppend(init, x);
      var d := Distinct(init);
      SumCountsAppendRecord(d, init, x);
      if x !in d {
        SumCountsAppendProject(d, ps, x);
      }
    }
  }

  /** `rows` holds the worklogs one per row, from `first` on, and nothing else. */
  predicate WorklogRows(rows: map<int, Worklog>, first: int, worklogs: seq<Worklog>) {
    (forall r | first <= r < first + |worklogs| :: r in rows && rows[r] == worklogs[r - first])
    && (forall r | r in rows :: first <= r < first + |worklogs|)
  }

  /** The first `k` projects of `order` sit one per row below `statsRow`, each with its record count in `ps`, and nothing else. */
  predicate PlacedStats(statRows: map<int, (string, nat)>, statsRow: int, order: seq<string>, ps: seq<string>, k: int)
    requires 0 <= k <= |order|
  {
    (forall r | statsRow < r <= statsRow + k :: r in statRows
       && statRows[r] == (order[r - statsRow - 1], Count(ps, order[r - statsRow - 1])))
    && (forall r | r in statRows :: statsRow < r <= statsRow + k)
  }

  /** `statRows` holds, below `statsRow`, one row per project in order of first appearance with its record count, and nothing else. */
  predicate StatRows(statRows: map<int, (string, nat)>, statsRow: int, worklogs: seq<Worklog>) {
    var order := Distinct(ProjectsOf(worklogs));
    PlacedStats(statRows, statsRow, order, ProjectsOf(worklogs), |order|)
  }

  /** Placing the next project keeps the rows placed so far. */
  lemma PlaceStatStep(statRows: map<int, (string, nat)>, statsRow: int, order: seq<string>, ps: seq<string>, k: int)
    requires 0 <= k < |order| && PlacedStats(statRows, statsRow, order, ps, k)
    ensures PlacedStats(statRows[statsRow + 1 + k := (order[k], Count(ps, order[k]))], statsRow, order, ps, k + 1)
  {
  }

  /** `records` counts, for each project of `order` and no other, its records in `ps`. */
  predicate Tallied(order: seq<string>, records: map<string, nat>, ps: seq<string>) {
    (forall p | p in records :: p in order)
    && (forall p | p in order :: p in records)
    && (forall p | p in records :: records[p] == Count(ps, p))
  }

  /** After the first `i` records: `order` lists their projects by first appearance and `records` counts them. */
  predicate TallyAfter(order: seq<string>, records: map<string, nat>, ps: seq<string>, i: int) {
    0 <= i <= |ps| && order == Distinct(ps[..i]) && Tallied(order, records, ps[..i])
  }

  /** Counting record `i`, adding its project at the end when it is new, keeps the tally. */
  lemma TallyStep(ps: seq<string>, i: int, order: seq<string>, records: map<string, nat>)
    requires TallyAfter(order, records, ps, i) && i < |ps|
    ensures TallyAfter(if ps[i] in order then order else order + [ps[i]],
      records[ps[i] := (if ps[i] in records then records[ps[i]] else 0) + 1], ps, i + 1)
  {
    assert ps[..i + 1] == ps[..i] + [ps[i]];
    DistinctAppend(ps[..i], ps[i]);
  }

  /** A tally over all of `ps` lists exactly the projects that occur, in order of first appearance, each with a positive count. */
  lemma TallyDone(order: seq<string>, records: map<string, nat>, ps: seq<string>)
    requires TallyAfter(order, records, ps, |ps|)
    ensures order == Distinct(ps)
    ensures forall p :: p in records <==> p in order
    ensures forall p | p in records :: records[p] == Count(ps, p) && records[p] >= 1
  {
    assert ps[..|ps|] == ps;
  }

  /** Lines 79-85: the worklogs placed one per row from `firstRow` on. */
  method PlaceWorklogs(worklogs: seq<Worklog>, firstRow: int) returns (rows: map<int, Worklog>)
    ensures WorklogRows(rows, firstRow, worklogs)
  {
    rows := map[];
    var i := 0;
    while i < |worklogs|
      invariant 0 <= i <= |worklogs|
      invariant forall r | firstRow <= r < firstRow + i :: r in rows && rows[r] == worklogs[r - firstRow]
      invariant forall r | r in rows :: firstRow <= r < firstRow + i
    {
      rows := rows[firstRow + i := worklogs[i]];
      i := i + 1;
    }
  }

  /**
   * Lines 120-126: one pass over the worklogs that adds each new project at
   * the end of the order with no records, then counts the record.
   */
  method ProjectStats(worklogs: seq<Worklog>) returns (order: seq<string>, records: map<string, nat>)
    ensures order == Distinct(ProjectsOf(worklogs))
    ensures forall p :: p in records <==> p in order
    ensures forall p | p in records :: records[p] == Count(ProjectsOf(worklogs), p) && records[p] >= 1
  {
    var ps := ProjectsOf(worklogs);
    order, records := [], map[];
    var i := 0;
    assert ps[..0] == [];
    while i < |ps|
      invariant TallyAfter(order, records, ps, i)
    {
      var p := ps[i];
      TallyStep(ps, i, order, records);
      var n := if p in records then records[p] else 0;
      records := records[p := n + 1];
      order := if p in order then order else order + [p];
      i := i + 1;
    }
    TallyDone(order, records, ps);
  }

  /** Where everything of the report sheet goes. */
  datatype Layout = Layout(
    headerRow: int,
    dataRows: map<int, Worklog>,
    totalRow: Option<int>,                 // only when there are worklogs
    statsRow: Option<int>,                 // only for a summary with worklogs
    statRows: map<int, (string, nat)>)     // row -> project and its record count

  /** Lines 129-132: one statistics row per project below `statsRow`, in order of first appearance. */
  method PlaceStats(worklogs: seq<Worklog>, statsRow: int) returns (statRows: map<int, (string, nat)>)
    ensures StatRows(statRows, statsRow, worklogs)
  {
    var order, records := ProjectStats(worklogs);
    ghost var ps := ProjectsOf(worklogs);
    statRows := map[];
    var k := 0;
    while k < |order|
      invariant 0 <= k <= |order|
      invariant PlacedStats(statRows, statsRow, order, ps, k)
    {
      assert order[k] in records;
      PlaceStatStep(statRows, statsRow, order, ps, k);
      statRows := statRows[statsRow + 1 + k := (order[k], records[order[k]])];
      k := k + 1;
    }
  }

  /** The row arithmetic of `generate_timesheet_report` (lines 44-63, 78-85, 103-133). */
  method PlanReport(worklogs: seq<Worklog>, projects: seq<Project>) returns (l: Layout)
    ensures l.headerRow == if |projects| > 1 then 4 else 3
    ensures WorklogRows(l.dataRows, l.headerRow + 1, worklogs)
    ensures l.totalRow == if worklogs == [] then None else Some(l.headerRow + |worklogs| + 2)
    ensures l.statsRow == if worklogs != [] && IsSummary(projects) then Some(l.headerRow + |worklogs| + 4) else None
    ensures l.statsRow.None? ==> l.statRows == map[]
    ensures l.statsRow.Some? ==> StatRows(l.statRows, l.statsRow.value, worklogs)
  {
    var header := HeaderRow(projects);
    var dataStart := header + 1;
    var rows := PlaceWorklogs(worklogs, dataStart);
    var total: Option<int> := None;
    var stats: Option<int> := None;
    var statRows: map<int, (string, nat)> := map[];
    if worklogs != [] {
      var totalRow := dataStart + |worklogs| + 1;
      total := Some(totalRow);
      if IsSummary(projects) {
        var statsRow := totalRow + 2;
        stats := Some(statsRow);
        statRows := PlaceStats(worklogs, statsRow);
      }
    }
    l := Layout(header, rows, total, stats, statRows);
  }

  /**
   * The parts of the sheet never collide: title, project list, header,
   * worklog rows, one blank row, totals, one blank row, statistics heading
   * and one row per project follow each other in that order.
   */
  lemma LayoutInOrder(l: Layout, worklogs: seq<Worklog>, projects: seq<Project>)
    requires l.headerRow == if |projects| > 1 then 4 else 3
    requires WorklogRows(l.dataRows, l.headerRow + 1, worklogs)
    requires l.totalRow == if worklogs == [] then None else Some(l.headerRow + |worklogs| + 2)
    requires l.statsRow == if worklogs != [] && IsSummary(projects) then Some(l.headerRow + |worklogs| + 4) else None
    requires l.statsRow.Some? ==> StatRows(l.statRows, l.statsRow.value, worklogs)
    ensures l.headerRow > (if IsSummary(projects) then 2 else 1)
    ensures l.totalRow.Some? ==> forall r | r in l.dataRows :: r + 1 < l.totalRow.value
    ensures l.statsRow.Some? ==> l.totalRow.Some? && l.totalRow.value + 1 < l.statsRow.value
    ensures l.statsRow.Some? ==> forall r, s | r in l.dataRows && s in l.statRows :: r < s
  {
  }
}
