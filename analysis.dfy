/** The deterministic part of analysis.py: rendering a duration as hours and
    minutes, grouping (group name, seconds) rows by group, and the order and
    counts of the per-group report. */
module Analysis {
  import opened Options
  import opened Decimal
  import opened Strings

  // ---------------------------------------------------------------------
  // Seconds to "<h>h <m>m"
  // ---------------------------------------------------------------------

  /** The whole hours and the whole minutes left over in `seconds`. */
  function HoursMinutes(seconds: nat): (hm: (nat, nat))
    ensures hm.1 < 60
    ensures hm.0 * 3600 + hm.1 * 60 <= seconds < hm.0 * 3600 + hm.1 * 60 + 60
  {
    (seconds / 3600, (seconds % 3600) / 60)
  }

  /** The two bounds of HoursMinutes determine it: no other hour and minute
      pair truncates `seconds` by less than a minute. */
  lemma HoursMinutesExact(seconds: nat, h: nat, m: nat)
    requires m < 60
    requires h * 3600 + m * 60 <= seconds < h * 3600 + m * 60 + 60
    ensures HoursMinutes(seconds) == (h, m)
  {
    assert h * 3600 <= seconds < (h + 1) * 3600;
    assert seconds / 3600 == h;
    assert seconds % 3600 == seconds - h * 3600;
  }

  /** analysis.py's `seconds_to_hm` on a whole number of seconds. */
  function SecondsToHm(seconds: nat): (r: string)
    ensures var hm := HoursMinutes(seconds);
      r == NatToString(hm.0) + "h " + NatToString(hm.1) + "m"
  {
    var (hours, minutes) := HoursMinutes(seconds);
    NatToString(hours) + "h " + NatToString(minutes) + "m"
  }

  /** The position of the first `c` in `s`, or |s| when there is none. */
  function IndexOf(s: string, c: char): (k: nat)
    ensures k <= |s|
    ensures k < |s| ==> s[k] == c
    ensures forall i :: 0 <= i < k ==> s[i] != c
    decreases |s|
  {
    if s == [] then 0
    else if s[0] == c then 0
    else 1 + IndexOf(s[1..], c)
  }

  /** Reads "<h>h <m>m" back into its hours and minutes. */
  function ParseHm(r: string): Option<(nat, nat)> {
    var k := IndexOf(r, 'h');
    if 0 < k && k + 2 < |r| && r[k + 1] == ' ' && r[|r| - 1] == 'm'
       && AllDigits(r[..k]) && AllDigits(r[k + 2..|r| - 1])
    then Some((Value(r[..k]), Value(r[k + 2..|r| - 1])))
    else None
  }

  /** The rendering is unambiguous: reading it back gives the hours and the
      minutes it was made from. */
  lemma SecondsToHmRoundTrip(seconds: nat)
    ensures ParseHm(SecondsToHm(seconds)) == Some(HoursMinutes(seconds))
  {
    var (h, m) := HoursMinutes(seconds);
    var hs, ms := NatToString(h), NatToString(m);
    var r := SecondsToHm(seconds);
    assert r == hs + "h " + ms + "m";
    assert r[|hs|] == 'h';
    assert forall i :: 0 <= i < |hs| ==> r[i] == hs[i] && r[i] != 'h';
    assert IndexOf(r, 'h') == |hs|;
    assert r[..|hs|] == hs;
    assert r[|hs| + 2..|r| - 1] == ms;
    ValueOfNatToString(h);
    ValueOfNatToString(m);
  }

  // ---------------------------------------------------------------------
  // Grouping rows by group name
  // ---------------------------------------------------------------------

  /** One row of the duration table: a group's total seconds on a ticket. */
  datatype DurationRow = DurationRow(groupName: string, totalSeconds: int)

  /** The durations of the rows of group `name`, in the order of `rows`. */
  function DurationsOf(rows: seq<DurationRow>, name: string): (d: seq<int>)
    ensures |d| <= |rows|
    ensures forall x :: x in d ==> exists i :: 0 <= i < |rows| && rows[i] == DurationRow(name, x)
    decreases |rows|
  {
    if rows == [] then []
    else
      var init := rows[..|rows| - 1];
      var last := rows[|rows| - 1];
      assert forall i :: 0 <= i < |init| ==> init[i] == rows[i];
      DurationsOf(init, name) + (if last.groupName == name then [last.totalSeconds] else [])
  }

  /** The group names occurring in `rows`. */
  function GroupNames(rows: seq<DurationRow>): (names: set<string>)
    ensures forall n :: n in names <==> exists i :: 0 <= i < |rows| && rows[i].groupName == n
    decreases |rows|
  {
    if rows == [] then {}
    else
      var init := rows[..|rows| - 1];
      var names := GroupNames(init);
      assert forall i :: 0 <= i < |init| ==> init[i] == rows[i];
      names + {rows[|rows| - 1].groupName}
  }

  /** A group has durations exactly when it occurs in the rows. */
  lemma {:induction false} DurationsOfEmptyIffAbsent(rows: seq<DurationRow>, name: string)
    ensures DurationsOf(rows, name) == [] <==> name !in GroupNames(rows)
    decreases |rows|
  {
    if rows != [] {
      DurationsOfEmptyIffAbsent(rows[..|rows| - 1], name);
    }
  }

  /** The grouping loop of analysis.py: every row's duration is appended to
      the list of its group, the list being created on the group's first
      row. */
  method GroupDurations(rows: seq<DurationRow>) returns (groupTimes: map<string, seq<int>>)
    ensures groupTimes.Keys == GroupNames(rows)
    ensures forall n :: n in groupTimes ==> groupTimes[n] == DurationsOf(rows, n)
    ensures forall n :: n in groupTimes ==> groupTimes[n] != []
  {
    groupTimes := map[];
    for i := 0 to |rows|
      invariant groupTimes.Keys == GroupNames(rows[..i])
      invariant forall n :: n in groupTimes ==> groupTimes[n] == DurationsOf(rows[..i], n)
    {
      var groupName := rows[i].groupName;
      var duration := rows[i].totalSeconds;
      assert rows[..i + 1][..i] == rows[..i] && rows[..i + 1][i] == rows[i];
      if groupName !in groupTimes {
        DurationsOfEmptyIffAbsent(rows[..i], groupName);
        groupTimes := groupTimes[groupName := []];
      }
      ghost var before := groupTimes;
      groupTimes := groupTimes[groupName := groupTimes[groupName] + [duration]];
      forall n | n in groupTimes
        ensures groupTimes[n] == DurationsOf(rows[..i + 1], n)
      {
        if n != groupName {
          assert groupTimes[n] == before[n];
        }
      }
    }
    assert rows[..|rows|] == rows;
    forall n | n in groupTimes
      ensures groupTimes[n] != []
    {
      DurationsOfEmptyIffAbsent(rows, n);
    }
  }

  // ---------------------------------------------------------------------
  // The report: groups in ascending name order with their counts
  // ---------------------------------------------------------------------

  predicate Ascending(names: seq<string>) {
    forall i, j :: 0 <= i < j < |names| ==> Less(names[i], names[j])
  }

  /** The least name of a non-empty set, in Python's string order. */
  method MinName(names: set<string>) returns (m: string)
    requires names != {}
    ensures m in names
    ensures forall n :: n in names && n != m ==> Less(m, n)
  {
    m :| m in names;
    var rest := names - {m};
    while rest != {}
      invariant rest <= names && m in names && m !in rest
      invariant forall n :: n in names && n !in rest && n != m ==> Less(m, n)
      decreases |rest|
    {
      var n :| n in rest;
      if Less(n, m) {
        forall x | x in names && x !in rest && x != m
          ensures Less(n, x)
        {
          LessTransitive(n, m, x);
        }
        m := n;
      } else {
        LessTotal(n, m);
      }
      rest := rest - {n};
    }
  }

  /** Python's `sorted` on the group names: every name once, ascending. */
  method SortNames(names: set<string>) returns (sorted: seq<string>)
    ensures Ascending(sorted)
    ensures forall n :: n in sorted <==> n in names
  {
    sorted := [];
    var rest := names;
    while rest != {}
      invariant rest <= names
      invariant forall n :: n in sorted <==> n in names && n !in rest
      invariant Ascending(sorted)
      invariant forall i, n :: 0 <= i < |sorted| && n in rest ==> Less(sorted[i], n)
      decreases |rest|
    {
      var m := MinName(rest);
      sorted := sorted + [m];
      rest := rest - {m};
    }
  }

  /** One line of the report: a group and the number of its durations. */
  datatype ReportLine = ReportLine(groupName: string, count: nat)

  function NamesOf(lines: seq<ReportLine>): (names: seq<string>)
    ensures |names| == |lines|
    ensures forall i :: 0 <= i < |lines| ==> names[i] == lines[i].groupName
  {
    seq(|lines|, i requires 0 <= i < |lines| => lines[i].groupName)
  }

  /** The report loop of analysis.py without the statistics: the groups in
      ascending name order, a group with no durations skipped, each with the
      length of its list. */
  method Report(groupTimes: map<string, seq<int>>) returns (lines: seq<ReportLine>)
    ensures Ascending(NamesOf(lines))
    ensures forall i :: 0 <= i < |lines| ==>
      lines[i].groupName in groupTimes && lines[i].count == |groupTimes[lines[i].groupName]| && lines[i].count > 0
    ensures forall n :: n in groupTimes && groupTimes[n] != [] <==> n in NamesOf(lines)
  {
    var names := SortNames(groupTimes.Keys);
    lines := [];
    for k := 0 to |names|
      invariant Ascending(NamesOf(lines))
      invariant forall i :: 0 <= i < |lines| ==>
        lines[i].groupName in groupTimes && lines[i].count == |groupTimes[lines[i].groupName]| && lines[i].count > 0
      invariant forall n :: n in NamesOf(lines) <==> n in names[..k] && groupTimes[n] != []
      invariant forall i, j :: 0 <= i < |lines| && k <= j < |names| ==> Less(lines[i].groupName, names[j])
    {
      var groupName := names[k];
      var times := groupTimes[groupName];
      assert names[..k + 1] == names[..k] + [groupName];
      if times == [] {
        continue;
      }
      var count := |times|;
      assert NamesOf(lines + [ReportLine(groupName, count)]) == NamesOf(lines) + [groupName];
      lines := lines + [ReportLine(groupName, count)];
    }
    assert names[..|names|] == names;
  }

  // ---------------------------------------------------------------------
  // Conservation: every row is counted once in the report
  // ---------------------------------------------------------------------

  function TotalCount(lines: seq<ReportLine>): nat {
    if lines == [] then 0 else lines[0].count + TotalCount(lines[1..])
  }

  predicate Distinct(names: seq<string>) {
    forall i, j :: 0 <= i < j < |names| ==> names[i] != names[j]
  }

  /** The number of rows that belong to the groups `names`. */
  function CountedRows(names: seq<string>, rows: seq<DurationRow>): nat {
    if names == [] then 0 else |DurationsOf(rows, names[0])| + CountedRows(names[1..], rows)
  }

  lemma {:induction false} CountedRowsOfNone(names: seq<string>)
    ensures CountedRows(names, []) == 0
  {
    if names != [] {
      CountedRowsOfNone(names[1..]);
    }
  }

  /** One more row adds one to the count of the groups it belongs to. */
  lemma {:induction false} CountedRowsSnoc(names: seq<string>, rows: seq<DurationRow>, row: DurationRow)
    requires Distinct(names)
    ensures CountedRows(names, rows + [row]) == CountedRows(names, rows) + (if row.groupName in names then 1 else 0)
  {
    if names != [] {
      assert (rows + [row])[..|rows|] == rows;
      assert Distinct(names[1..]) by {
        forall i, j | 0 <= i < j < |names[1..]|
          ensures names[1..][i] != names[1..][j]
        {
          assert names[1..][i] == names[i + 1] && names[1..][j] == names[j + 1];
        }
      }
      CountedRowsSnoc(names[1..], rows, row);
      assert row.groupName in names <==> row.groupName == names[0] || row.groupName in names[1..];
      if row.groupName == names[0] {
        assert row.groupName !in names[1..];
      }
    }
  }

  /** With each group listed once, the groups' list lengths add up to the
      number of rows. */
  lemma {:induction false} RowsConserved(names: seq<string>, rows: seq<DurationRow>)
    requires Distinct(names)
    requires forall i :: 0 <= i < |rows| ==> rows[i].groupName in names
    ensures CountedRows(names, rows) == |rows|
    decreases |rows|
  {
    if rows == [] {
      CountedRowsOfNone(names);
    } else {
      var init := rows[..|rows| - 1];
      assert rows == init + [rows[|rows| - 1]];
      RowsConserved(names, init);
      CountedRowsSnoc(names, init, rows[|rows| - 1]);
    }
  }

  lemma {:induction false} TotalCountIsCountedRows(lines: seq<ReportLine>, rows: seq<DurationRow>)
    requires forall i :: 0 <= i < |lines| ==> lines[i].count == |DurationsOf(rows, lines[i].groupName)|
    ensures TotalCount(lines) == CountedRows(NamesOf(lines), rows)
  {
    if lines != [] {
      assert NamesOf(lines)[1..] == NamesOf(lines[1..]);
      TotalCountIsCountedRows(lines[1..], rows);
    }
  }

  /** analyze_group_times_db without the database and the statistics: the
      rows grouped and reported. Every group of the rows is reported once,
      in ascending name order, with the number of its rows, so that the
      counts add up to the number of rows. */
  method GroupReport(rows: seq<DurationRow>) returns (lines: seq<ReportLine>)
    ensures Ascending(NamesOf(lines))
    ensures forall n :: n in NamesOf(lines) <==> n in GroupNames(rows)
    ensures forall i :: 0 <= i < |lines| ==> lines[i].count == |DurationsOf(rows, lines[i].groupName)|
    ensures TotalCount(lines) == |rows|
  {
    var groupTimes := GroupDurations(rows);
    lines := Report(groupTimes);
    var names := NamesOf(lines);
    assert Distinct(names) by {
      forall i, j | 0 <= i < j < |names|
        ensures names[i] != names[j]
      {
        if names[i] == names[j] {
          LessIrreflexive(names[i]);
        }
      }
    }
    TotalCountIsCountedRows(lines, rows);
    RowsConserved(names, rows);
  }
}
