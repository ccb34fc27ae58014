/** The assignment-time core of main.py: classifying audit-log entries of a
    ticket, checking a group's current assignment, and replaying the log for
    one group to total the time that group held the ticket.

    Timestamps are whole seconds. The wall clock read at main.py:119 is the
    parameter `now`. */
module TicketLog {
  import opened Decimal
  import opened Strings
  import opened Options

  /** One entry of a ticket's audit log, as the API returns it. A field the
      entry lacks is `None`; `date_mod` is always present. */
  datatype LogEntry = LogEntry(
    itemtypeLink: Option<string>,
    linkedAction: Option<int>,
    newValue: Option<string>,
    oldValue: Option<string>,
    dateMod: int)

  /** One row of a ticket's group sub-items. */
  datatype GroupRow = GroupRow(groupsId: Option<int>, kind: Option<int>)

  const GroupAssignedAction: int := 15
  const GroupUnassignedAction: int := 16

  // ---------------------------------------------------------------------
  // Current assignment
  // ---------------------------------------------------------------------

  /** Whether one group row names `groupId` with type `typeId`. */
  function RowMatches(row: GroupRow, groupId: int, typeId: int): (r: bool)
    ensures row.groupsId.Some? && row.kind.Some? ==>
      (r <==> row.groupsId.value == groupId && row.kind.value == typeId)
    ensures row.groupsId.None? && row.kind.None? ==> (r <==> groupId == 0 && typeId == 0)
  {
    GetOr(row.groupsId, 0) == groupId && GetOr(row.kind, 0) == typeId
  }

  /** Whether some group row names `groupId` with type `typeId`, a missing
      key being read as 0. */
  function IsGroupCurrentlyAssigned(groups: seq<GroupRow>, groupId: int, typeId: int): (r: bool)
    ensures r <==> exists i :: 0 <= i < |groups| && RowMatches(groups[i], groupId, typeId)
    decreases |groups|
  {
    if groups == [] then false
    else if RowMatches(groups[0], groupId, typeId) then true
    else
      var r := IsGroupCurrentlyAssigned(groups[1..], groupId, typeId);
      assert forall i :: 0 < i < |groups| ==> groups[i] == groups[1..][i - 1];
      r
  }

  // ---------------------------------------------------------------------
  // Classifying a log entry
  // ---------------------------------------------------------------------

  /** The text searched for in a value field: the group id in parentheses. */
  function GroupIdentifier(groupId: int): (id: string)
    ensures |id| >= 3 && id[0] == '(' && id[|id| - 1] == ')'
    ensures forall k :: 0 < k < |id| - 1 ==> IsDigit(id[k]) || id[k] == '-'
  {
    "(" + IntToString(groupId) + ")"
  }

  /** The value field an action is read from: the new value for an
      assignment, the old value otherwise; a missing field reads as "". */
  function ValueField(log: LogEntry, action: int): (v: string)
    ensures action == GroupAssignedAction && log.newValue.Some? ==> v == log.newValue.value
    ensures action != GroupAssignedAction && log.oldValue.Some? ==> v == log.oldValue.value
    ensures (if action == GroupAssignedAction then log.newValue else log.oldValue).None? ==> v == ""
  {
    if action == GroupAssignedAction then GetOr(log.newValue, "") else GetOr(log.oldValue, "")
  }

  /** Whether `log` records `action` on a group whose identifier text occurs
      in the field that action is read from. */
  function IsGroupAction(log: LogEntry, groupId: int, action: int): (r: bool)
    ensures r ==> log.itemtypeLink == Some("Group") && GetOr(log.linkedAction, 0) == action
    ensures r ==> exists i :: OccursAt(ValueField(log, action), GroupIdentifier(groupId), i)
  {
    if log.itemtypeLink != Some("Group") || GetOr(log.linkedAction, 0) != action then false
    else Contains(ValueField(log, action), GroupIdentifier(groupId))
  }

  /** An entry of the right kind whose field holds the group identifier at
      any position is classified as that group's action. */
  lemma IsGroupActionWhenOccurs(log: LogEntry, groupId: int, action: int, i: int)
    requires log.itemtypeLink == Some("Group") && GetOr(log.linkedAction, 0) == action
    requires OccursAt(ValueField(log, action), GroupIdentifier(groupId), i)
    ensures IsGroupAction(log, groupId, action)
  {
  }

  /** An assignment is read from the new value only and an unassignment
      from the old value only. */
  lemma ValueFieldChoice(log: LogEntry, groupId: int, other: Option<string>)
    ensures IsGroupAction(log.(oldValue := other), groupId, GroupAssignedAction)
        == IsGroupAction(log, groupId, GroupAssignedAction)
    ensures IsGroupAction(log.(newValue := other), groupId, GroupUnassignedAction)
        == IsGroupAction(log, groupId, GroupUnassignedAction)
  {
  }

  /** A missing value field reads as "", which holds no identifier. */
  lemma MissingValueNeverMatches(log: LogEntry, groupId: int)
    requires log.newValue.None? && log.oldValue.None?
    ensures !IsGroupAction(log, groupId, GroupAssignedAction)
    ensures !IsGroupAction(log, groupId, GroupUnassignedAction)
  {
    assert |GroupIdentifier(groupId)| > 0;
  }

  /** In a well-formed value "<name>(<id>)" whose name has no '(', the one
      '(' is the one opening the identifier. */
  lemma OnlyOpenParen(name: string, g: int, i: int)
    requires forall k :: 0 <= k < |name| ==> name[k] != '('
    requires 0 <= i < |name + GroupIdentifier(g)| && i != |name|
    ensures (name + GroupIdentifier(g))[i] != '('
  {
    var s := name + GroupIdentifier(g);
    var d := IntToString(g);
    if i < |name| {
      assert s[i] == name[i];
    } else if i < |name| + 1 + |d| {
      assert s[i] == d[i - |name| - 1];
    }
  }

  /** Inside a group identifier come the characters of the id, none of
      them a ')'. */
  lemma IdentifierBody(g: int, k: int)
    ensures 0 <= k < |IntToString(g)| ==>
      GroupIdentifier(g)[1 + k] == IntToString(g)[k] && GroupIdentifier(g)[1 + k] != ')'
  {
  }

  /** An occurrence of a group identifier in a well-formed value whose name
      has no '(' starts where the value's identifier does. */
  lemma OccursOnlyAfterName(name: string, g: int, h: int, i: int)
    requires forall k :: 0 <= k < |name| ==> name[k] != '('
    requires OccursAt(name + GroupIdentifier(g), GroupIdentifier(h), i)
    ensures i == |name|
  {
    var s := name + GroupIdentifier(g);
    assert s[i] == GroupIdentifier(h)[0] == '(';
    if i != |name| {
      OnlyOpenParen(name, g, i);
    }
  }

  /** One group identifier begins another only when the two are equal. */
  lemma {:induction false} IdentifierPrefixEqual(g: int, h: int)
    requires GroupIdentifier(h) <= GroupIdentifier(g)
    ensures h == g
  {
    var dg, dh := IntToString(g), IntToString(h);
    var ig, ih := GroupIdentifier(g), GroupIdentifier(h);
    assert |dh| <= |dg|;
    forall k | 0 <= k < |dh|
      ensures dh[k] == dg[k]
    {
      IdentifierBody(g, k);
      IdentifierBody(h, k);
    }
    assert ig[1 + |dh|] == ih[1 + |dh|] == ')';
    IdentifierBody(g, |dh|);
    assert |dh| == |dg|;
    assert dh == dg;
    IntToStringInjective(h, g);
  }

  /** For a well-formed value "<name>(<id>)" whose name has no '(', the
      classification is exact: it is an action of group `h` if and only if
      `h` is the id written in it. */
  lemma {:induction false} WellFormedValueMatchesOnlyItsGroup(log: LogEntry, action: int, name: string, g: int, h: int)
    requires log.itemtypeLink == Some("Group") && GetOr(log.linkedAction, 0) == action
    requires ValueField(log, action) == name + GroupIdentifier(g)
    requires forall k :: 0 <= k < |name| ==> name[k] != '('
    ensures IsGroupAction(log, h, action) <==> h == g
  {
    var s := name + GroupIdentifier(g);
    if h == g {
      assert OccursAt(s, GroupIdentifier(g), |name|) by {
        assert s[|name|..|name| + |GroupIdentifier(g)|] == GroupIdentifier(g);
      }
    }
    if IsGroupAction(log, h, action) {
      var i :| OccursAt(s, GroupIdentifier(h), i);
      OccursOnlyAfterName(name, g, h, i);
      assert s[|name|..] == GroupIdentifier(g);
      assert GroupIdentifier(h) == s[|name|..][..|GroupIdentifier(h)|];
      IdentifierPrefixEqual(g, h);
    }
  }

  /** An entry is never both an assignment and an unassignment. */
  lemma AssignAndUnassignExclusive(log: LogEntry, groupId: int)
    ensures !(IsGroupAction(log, groupId, GroupAssignedAction) && IsGroupAction(log, groupId, GroupUnassignedAction))
  {
  }

  // ---------------------------------------------------------------------
  // Chronological order: a stable sort on the modification date
  // ---------------------------------------------------------------------

  predicate SortedByDate(s: seq<LogEntry>) {
    forall i, j :: 0 <= i < j < |s| ==> s[i].dateMod <= s[j].dateMod
  }

  /** `x` alone when it is stamped `d`, nothing otherwise. */
  function DatePart(x: LogEntry, d: int): seq<LogEntry> {
    if x.dateMod == d then [x] else []
  }

  /** The entries of `s` stamped `d`, in the order they appear in `s`. */
  function WithDate(s: seq<LogEntry>, d: int): seq<LogEntry>
    decreases |s|
  {
    if s == [] then [] else DatePart(s[0], d) + WithDate(s[1..], d)
  }

  /** Inserts `e` before the first entry stamped no earlier than it. */
  function InsertByDate(e: LogEntry, s: seq<LogEntry>): (r: seq<LogEntry>)
    ensures multiset(r) == multiset(s) + multiset{e}
    decreases |s|
  {
    if s == [] || e.dateMod <= s[0].dateMod then
      [e] + s
    else
      assert s == [s[0]] + s[1..];
      [s[0]] + InsertByDate(e, s[1..])
  }

  lemma InsertMembers(e: LogEntry, s: seq<LogEntry>)
    ensures forall x :: x in InsertByDate(e, s) <==> x in s || x == e
  {
    var r := InsertByDate(e, s);
    forall x
      ensures x in r <==> x in s || x == e
    {
      assert x in r <==> x in multiset(r);
      assert x in s <==> x in multiset(s);
    }
  }

  lemma {:induction false} InsertSorted(e: LogEntry, s: seq<LogEntry>)
    requires SortedByDate(s)
    ensures SortedByDate(InsertByDate(e, s))
    decreases |s|
  {
    if s != [] && e.dateMod > s[0].dateMod {
      var r' := InsertByDate(e, s[1..]);
      InsertSorted(e, s[1..]);
      InsertMembers(e, s[1..]);
      assert forall x :: x in s[1..] ==> s[0].dateMod <= x.dateMod;
      assert forall i :: 0 <= i < |r'| ==> r'[i] in r';
    }
  }

  /** Insertion puts `e` first among the entries of its own date and
      leaves the other dates alone. */
  lemma {:induction false} InsertWithDate(e: LogEntry, s: seq<LogEntry>, d: int)
    ensures WithDate(InsertByDate(e, s), d) == DatePart(e, d) + WithDate(s, d)
    decreases |s|
  {
    if s == [] || e.dateMod <= s[0].dateMod {
      assert ([e] + s)[0] == e && ([e] + s)[1..] == s;
    } else {
      var r' := InsertByDate(e, s[1..]);
      InsertWithDate(e, s[1..], d);
      assert ([s[0]] + r')[0] == s[0] && ([s[0]] + r')[1..] == r';
      assert DatePart(s[0], d) == [] || DatePart(e, d) == [];
    }
  }

  /** Python's `sorted(logs, key=date)`: ascending by date, entries with the
      same date kept in their original order. */
  function SortByDate(logs: seq<LogEntry>): (r: seq<LogEntry>)
    ensures SortedByDate(r)
    ensures multiset(r) == multiset(logs)
    ensures forall d :: WithDate(r, d) == WithDate(logs, d)
    decreases |logs|
  {
    if logs == [] then []
    else
      assert logs == [logs[0]] + logs[1..];
      var rest := SortByDate(logs[1..]);
      InsertSorted(logs[0], rest);
      forall d
        ensures WithDate(InsertByDate(logs[0], rest), d) == WithDate(logs, d)
      {
        InsertWithDate(logs[0], rest, d);
      }
      InsertByDate(logs[0], rest)
  }

  lemma {:induction false} WithDateNonEmpty(s: seq<LogEntry>, i: int)
    requires 0 <= i < |s|
    ensures WithDate(s, s[i].dateMod) != []
    decreases |s|
  {
    if i > 0 {
      WithDateNonEmpty(s[1..], i - 1);
    }
  }

  lemma {:induction false} WithDateHasDate(s: seq<LogEntry>, d: int)
    requires WithDate(s, d) != []
    ensures exists i :: 0 <= i < |s| && s[i].dateMod == d
    decreases |s|
  {
    if s[0].dateMod != d {
      WithDateHasDate(s[1..], d);
      var i :| 0 <= i < |s| - 1 && s[1..][i].dateMod == d;
      assert s[i + 1].dateMod == d;
    }
  }

  /** Two date-sorted sequences with the same entries per date start alike. */
  lemma SameFirst(a: seq<LogEntry>, b: seq<LogEntry>)
    requires a != [] && b != []
    requires SortedByDate(a) && SortedByDate(b)
    requires WithDate(a, a[0].dateMod) == WithDate(b, a[0].dateMod)
    requires WithDate(a, b[0].dateMod) == WithDate(b, b[0].dateMod)
    ensures a[0] == b[0]
  {
    WithDateHasDate(b, a[0].dateMod);
    WithDateHasDate(a, b[0].dateMod);
    assert a[0].dateMod == b[0].dateMod;
    assert WithDate(a, a[0].dateMod)[0] == a[0];
    assert WithDate(b, b[0].dateMod)[0] == b[0];
  }

  /** A stable sort has exactly one possible outcome: two date-sorted
      sequences with the same entries per date, in the same order, are equal.
      So SortByDate is the order the source replays the log in. */
  lemma {:induction false} StableSortUnique(a: seq<LogEntry>, b: seq<LogEntry>)
    requires SortedByDate(a) && SortedByDate(b)
    requires forall d :: WithDate(a, d) == WithDate(b, d)
    ensures a == b
    decreases |a| + |b|
  {
    if a == [] && b != [] {
      WithDateNonEmpty(b, 0);
    } else if a != [] && b == [] {
      WithDateNonEmpty(a, 0);
    } else if a != [] {
      SameFirst(a, b);
      var a', b' := a[1..], b[1..];
      forall d
        ensures WithDate(a', d) == WithDate(b', d)
      {
        var p := DatePart(a[0], d);
        assert WithDate(a, d) == p + WithDate(a', d);
        assert WithDate(b, d) == p + WithDate(b', d);
        assert WithDate(a', d) == WithDate(a, d)[|p|..];
      }
      StableSortUnique(a', b');
      assert a == [a[0]] + a' && b == [b[0]] + b';
    }
  }

  // ---------------------------------------------------------------------
  // Replaying the log for one group
  // ---------------------------------------------------------------------

  /** Whether the group is currently in a stint, and since when. */
  datatype Stint = Unassigned | AssignedSince(start: int)

  /** The replay state: closed-stint time so far and the current stint. */
  datatype Tally = Tally(total: int, stint: Stint)

  /** One entry of the replay: an assignment opens a stint unless one is
      open; an unassignment closes an open stint and adds its length. */
  function Step(t: Tally, log: LogEntry, groupId: int): (r: Tally)
    // an entry that is not an action of the group changes nothing
    ensures (!IsGroupAction(log, groupId, GroupAssignedAction)
             && !IsGroupAction(log, groupId, GroupUnassignedAction)) ==> r == t
    // an open stint is never restarted
    ensures t.stint.AssignedSince? && r.stint.AssignedSince? ==> r == t
    // a stint opens only on an assignment, at that entry's date
    ensures t.stint.Unassigned? && r.stint.AssignedSince? ==>
      IsGroupAction(log, groupId, GroupAssignedAction) && r.stint.start == log.dateMod
    // time is added only when an unassignment closes a stint, by its length
    ensures r.total != t.total ==>
      t.stint.AssignedSince? && r.stint.Unassigned? && IsGroupAction(log, groupId, GroupUnassignedAction)
      && r.total == t.total + (log.dateMod - t.stint.start)
  {
    if IsGroupAction(log, groupId, GroupAssignedAction) then
      if t.stint.Unassigned? then Tally(t.total, AssignedSince(log.dateMod)) else t
    else if IsGroupAction(log, groupId, GroupUnassignedAction) then
      if t.stint.AssignedSince? then Tally(t.total + (log.dateMod - t.stint.start), Unassigned) else t
    else t
  }

  /** The state after replaying `logs` in order from `t`. */
  function Replay(logs: seq<LogEntry>, groupId: int, t: Tally): Tally
    decreases |logs|
  {
    if logs == [] then t else Replay(logs[1..], groupId, Step(t, logs[0], groupId))
  }

  /** The total once a stint still open is counted up to `now`. */
  function Close(t: Tally, now: int): (r: int)
    // the clock does not touch time already closed
    ensures t.stint.Unassigned? ==> r == t.total
    // an open stint adds exactly the time from its start to `now`
    ensures t.stint.AssignedSince? ==> r - t.total == now - t.stint.start
  {
    match t.stint
    case Unassigned => t.total
    case AssignedSince(start) => t.total + (now - start)
  }

  /** The time `groupId` held the ticket according to its log. */
  function TimeSpent(logs: seq<LogEntry>, groupId: int, now: int): (r: int)
    // with `now` no earlier than any entry, the time spent is never negative
    ensures (forall i :: 0 <= i < |logs| ==> logs[i].dateMod <= now) ==> r >= 0
  {
    var sorted := SortByDate(logs);
    var r := Close(Replay(sorted, groupId, Tally(0, Unassigned)), now);
    if forall i :: 0 <= i < |logs| ==> logs[i].dateMod <= now then
      SortKeepsBound(logs, now);
      ReplayNeverLosesTime(sorted, groupId, Tally(0, Unassigned), now);
      r
    else
      r
  }

  /** Whether `groupId` is in a stint once the whole log is replayed. */
  function StillAssigned(logs: seq<LogEntry>, groupId: int): bool {
    Replay(SortByDate(logs), groupId, Tally(0, Unassigned)).stint.AssignedSince?
  }

  /** The stint the source's two locals describe. */
  function StintOf(isAssigned: bool, lastAssignDate: Option<int>): Stint {
    if isAssigned && lastAssignDate.Some? then AssignedSince(lastAssignDate.value) else Unassigned
  }

  /** The loop of main.py's `calculate_time_spent` over the sorted log,
      with the clock read as `now`. */
  method AccumulateStints(sortedLogs: seq<LogEntry>, groupId: int, now: int) returns (totalDuration: int)
    ensures totalDuration == Close(Replay(sortedLogs, groupId, Tally(0, Unassigned)), now)
  {
    totalDuration := 0;
    var lastAssignDate: Option<int> := None;
    var isAssigned := false;
    for k := 0 to |sortedLogs|
      invariant isAssigned <==> lastAssignDate.Some?
      invariant Replay(sortedLogs[k..], groupId, Tally(totalDuration, StintOf(isAssigned, lastAssignDate)))
             == Replay(sortedLogs, groupId, Tally(0, Unassigned))
    {
      var log := sortedLogs[k];
      ghost var before := Tally(totalDuration, StintOf(isAssigned, lastAssignDate));
      assert sortedLogs[k..][0] == log && sortedLogs[k..][1..] == sortedLogs[k + 1..];
      var dateMod := log.dateMod;
      if IsGroupAction(log, groupId, GroupAssignedAction) {
        if !isAssigned {
          lastAssignDate := Some(dateMod);
          isAssigned := true;
        }
        assert Tally(totalDuration, StintOf(isAssigned, lastAssignDate)) == Step(before, log, groupId);
      } else if IsGroupAction(log, groupId, GroupUnassignedAction) {
        if isAssigned && lastAssignDate.Some? {
          var duration := dateMod - lastAssignDate.value;
          totalDuration := totalDuration + duration;
          isAssigned := false;
          lastAssignDate := None;
        }
        assert Tally(totalDuration, StintOf(isAssigned, lastAssignDate)) == Step(before, log, groupId);
      } else {
        assert Step(before, log, groupId) == before;
      }
    }
    if isAssigned && lastAssignDate.Some? {
      var duration := now - lastAssignDate.value;
      totalDuration := totalDuration + duration;
    }
  }

  /** main.py's `calculate_time_spent`: sort the log, then replay it. With
      `now` no earlier than any entry, the result is never negative. */
  method CalculateTimeSpent(logs: seq<LogEntry>, groupId: int, now: int) returns (totalDuration: int)
    ensures totalDuration == TimeSpent(logs, groupId, now)
    ensures (forall i :: 0 <= i < |logs| ==> logs[i].dateMod <= now) ==> totalDuration >= 0
  {
    var sortedLogs := SortByDate(logs);
    totalDuration := AccumulateStints(sortedLogs, groupId, now);
  }

  // ---------------------------------------------------------------------
  // Properties of the replay
  // ---------------------------------------------------------------------

  lemma {:induction false} ReplayAppend(xs: seq<LogEntry>, ys: seq<LogEntry>, groupId: int, t: Tally)
    ensures Replay(xs + ys, groupId, t) == Replay(ys, groupId, Replay(xs, groupId, t))
    decreases |xs|
  {
    if xs != [] {
      assert (xs + ys)[0] == xs[0] && (xs + ys)[1..] == xs[1..] + ys;
      ReplayAppend(xs[1..], ys, groupId, Step(t, xs[0], groupId));
    } else {
      assert xs + ys == ys;
    }
  }

  /** A stint open after the replay is the one open before it, or began at
      the date of an assignment of the group in the log. */
  lemma {:induction false} OpenStintStartsAtAssign(logs: seq<LogEntry>, groupId: int, t: Tally)
    ensures Replay(logs, groupId, t).stint.AssignedSince? ==>
      Replay(logs, groupId, t).stint == t.stint
      || exists i :: 0 <= i < |logs| && IsGroupAction(logs[i], groupId, GroupAssignedAction)
                    && logs[i].dateMod == Replay(logs, groupId, t).stint.start
    decreases |logs|
  {
    if logs != [] {
      var t' := Step(t, logs[0], groupId);
      OpenStintStartsAtAssign(logs[1..], groupId, t');
      assert forall i :: 0 < i < |logs| ==> logs[i] == logs[1..][i - 1];
    }
  }

  /** First assignment wins: while a stint is open, entries other than an
      unassignment of the group, repeated assignments included, change
      nothing. */
  lemma {:induction false} OpenStintKeepsStart(logs: seq<LogEntry>, groupId: int, total: int, start: int)
    requires forall i :: 0 <= i < |logs| ==> !IsGroupAction(logs[i], groupId, GroupUnassignedAction)
    ensures Replay(logs, groupId, Tally(total, AssignedSince(start))) == Tally(total, AssignedSince(start))
    decreases |logs|
  {
    if logs != [] {
      OpenStintKeepsStart(logs[1..], groupId, total, start);
    }
  }

  /** Unmatched unassignments are ignored: with no stint open, entries other
      than an assignment of the group change nothing. */
  lemma {:induction false} IdleIgnoresUnassign(logs: seq<LogEntry>, groupId: int, total: int)
    requires forall i :: 0 <= i < |logs| ==> !IsGroupAction(logs[i], groupId, GroupAssignedAction)
    ensures Replay(logs, groupId, Tally(total, Unassigned)) == Tally(total, Unassigned)
    decreases |logs|
  {
    if logs != [] {
      IdleIgnoresUnassign(logs[1..], groupId, total);
    }
  }

  /** A run of assignments opens one stint, at the first one's date. */
  lemma RepeatedAssignsCollapse(logs: seq<LogEntry>, groupId: int, total: int)
    requires logs != []
    requires forall i :: 0 <= i < |logs| ==> IsGroupAction(logs[i], groupId, GroupAssignedAction)
    ensures Replay(logs, groupId, Tally(total, Unassigned)) == Tally(total, AssignedSince(logs[0].dateMod))
  {
    forall i | 0 <= i < |logs[1..]|
      ensures !IsGroupAction(logs[1..][i], groupId, GroupUnassignedAction)
    {
      AssignAndUnassignExclusive(logs[1..][i], groupId);
    }
    OpenStintKeepsStart(logs[1..], groupId, total, logs[0].dateMod);
  }

  /** An assignment at t1, then anything but an unassignment, then an
      unassignment at t2 adds exactly t2 - t1 and leaves no stint open. */
  lemma StintAddsItsLength(a: LogEntry, mid: seq<LogEntry>, u: LogEntry, groupId: int, total: int)
    requires IsGroupAction(a, groupId, GroupAssignedAction)
    requires forall i :: 0 <= i < |mid| ==> !IsGroupAction(mid[i], groupId, GroupUnassignedAction)
    requires IsGroupAction(u, groupId, GroupUnassignedAction)
    ensures Replay([a] + mid + [u], groupId, Tally(total, Unassigned))
         == Tally(total + (u.dateMod - a.dateMod), Unassigned)
  {
    ReplayAppend([a], mid, groupId, Tally(total, Unassigned));
    ReplayAppend([a] + mid, [u], groupId, Tally(total, Unassigned));
    OpenStintKeepsStart(mid, groupId, total, a.dateMod);
    AssignAndUnassignExclusive(u, groupId);
  }

  /** Membership is the same before and after sorting. */
  lemma SortedMembers(logs: seq<LogEntry>)
    ensures forall x :: x in SortByDate(logs) <==> x in logs
  {
    var r := SortByDate(logs);
    forall x
      ensures x in r <==> x in logs
    {
      assert x in r <==> x in multiset(r);
      assert x in logs <==> x in multiset(logs);
    }
  }

  /** A log with no assignment of the group yields no time at all. */
  lemma NoAssignNoTime(logs: seq<LogEntry>, groupId: int, now: int)
    requires forall i :: 0 <= i < |logs| ==> !IsGroupAction(logs[i], groupId, GroupAssignedAction)
    ensures TimeSpent(logs, groupId, now) == 0
  {
    var r := SortByDate(logs);
    SortedMembers(logs);
    forall i | 0 <= i < |r|
      ensures !IsGroupAction(r[i], groupId, GroupAssignedAction)
    {
      assert r[i] in logs;
    }
    IdleIgnoresUnassign(r, groupId, 0);
  }

  /** A stint still open at the end of the log is counted once, up to `now`:
      moving `now` moves the total by the same amount, and only then. */
  lemma OpenStintCountedOnce(logs: seq<LogEntry>, groupId: int, now1: int, now2: int)
    ensures TimeSpent(logs, groupId, now2) - TimeSpent(logs, groupId, now1)
         == if StillAssigned(logs, groupId) then now2 - now1 else 0
  {
  }

  /** Replaying a date-sorted log from a state whose stint began no later
      than every entry never lowers the total, and any stint left open began
      no later than a bound on every date. */
  lemma {:induction false} ReplayNeverLosesTime(logs: seq<LogEntry>, groupId: int, t: Tally, hi: int)
    requires SortedByDate(logs)
    requires t.stint.AssignedSince? ==> t.stint.start <= hi
    requires t.stint.AssignedSince? ==> forall i :: 0 <= i < |logs| ==> t.stint.start <= logs[i].dateMod
    requires forall i :: 0 <= i < |logs| ==> logs[i].dateMod <= hi
    ensures Replay(logs, groupId, t).total >= t.total
    ensures Replay(logs, groupId, t).stint.AssignedSince? ==> Replay(logs, groupId, t).stint.start <= hi
    decreases |logs|
  {
    if logs != [] {
      var t' := Step(t, logs[0], groupId);
      assert t'.total >= t.total;
      assert t'.stint.AssignedSince? ==> forall i :: 0 <= i < |logs| ==> t'.stint.start <= logs[i].dateMod;
      ReplayNeverLosesTime(logs[1..], groupId, t', hi);
    }
  }

  /** A bound on every date of the log bounds every date of the sorted log. */
  lemma SortKeepsBound(logs: seq<LogEntry>, hi: int)
    requires forall i :: 0 <= i < |logs| ==> logs[i].dateMod <= hi
    ensures forall i :: 0 <= i < |SortByDate(logs)| ==> SortByDate(logs)[i].dateMod <= hi
  {
    var r := SortByDate(logs);
    SortedMembers(logs);
    forall i | 0 <= i < |r|
      ensures r[i].dateMod <= hi
    {
      assert r[i] in logs;
    }
  }

  // ---------------------------------------------------------------------
  // Worked logs
  // ---------------------------------------------------------------------

  /** A group assignment entry at time `t` carrying `value`. */
  function AssignEntry(value: string, t: int): LogEntry {
    LogEntry(Some("Group"), Some(GroupAssignedAction), Some(value), None, t)
  }

  /** A group unassignment entry at time `t` carrying `value`. */
  function UnassignEntry(value: string, t: int): LogEntry {
    LogEntry(Some("Group"), Some(GroupUnassignedAction), None, Some(value), t)
  }

  /** A group assigned at `t1` and unassigned at `t2` held the ticket for
      `t2 - t1`, whatever the clock says. */
  lemma ClosedStint(name: string, g: int, t1: int, t2: int, now: int)
    requires forall k :: 0 <= k < |name| ==> name[k] != '('
    requires t1 <= t2
    ensures TimeSpent([AssignEntry(name + GroupIdentifier(g), t1), UnassignEntry(name + GroupIdentifier(g), t2)], g, now)
         == t2 - t1
  {
    var a, u := AssignEntry(name + GroupIdentifier(g), t1), UnassignEntry(name + GroupIdentifier(g), t2);
    var logs := [a, u];
    assert SortByDate(logs) == logs by {
      assert logs[1..] == [u] && [u][1..] == [];
      assert SortByDate([u]) == [u];
    }
    WellFormedValueMatchesOnlyItsGroup(a, GroupAssignedAction, name, g, g);
    WellFormedValueMatchesOnlyItsGroup(u, GroupUnassignedAction, name, g, g);
    StintAddsItsLength(a, [], u, g, 0);
    assert [a] + [] + [u] == logs;
  }

  /** A group assigned at `t1` and never unassigned has held the ticket
      for `now - t1`. */
  lemma OpenStint(name: string, g: int, t1: int, now: int)
    requires forall k :: 0 <= k < |name| ==> name[k] != '('
    ensures TimeSpent([AssignEntry(name + GroupIdentifier(g), t1)], g, now) == now - t1
  {
    var a := AssignEntry(name + GroupIdentifier(g), t1);
    assert SortByDate([a]) == [a] by {
      assert [a][1..] == [];
    }
    WellFormedValueMatchesOnlyItsGroup(a, GroupAssignedAction, name, g, g);
    RepeatedAssignsCollapse([a], g, 0);
  }

  /** The match is on text, not on the parsed id: a display name that itself
      holds "(2)" makes the entry an action of group 2 as well as of the
      group whose id closes the value. */
  lemma IdTextInNameAlsoMatches(t: int)
    ensures IsGroupAction(AssignEntry("Legacy (2) (5)", t), 2, GroupAssignedAction)
    ensures IsGroupAction(AssignEntry("Legacy (2) (5)", t), 5, GroupAssignedAction)
  {
    assert IntToString(2) == "2" && IntToString(5) == "5";
    var v := "Legacy (2) (5)";
    assert v[7..10] == GroupIdentifier(2);
    assert v[11..14] == GroupIdentifier(5);
    IsGroupActionWhenOccurs(AssignEntry(v, t), 2, GroupAssignedAction, 7);
    IsGroupActionWhenOccurs(AssignEntry(v, t), 5, GroupAssignedAction, 11);
  }

  /** The value "Support (1)" is "Support " followed by group 1's
      identifier. */
  lemma SupportValue()
    ensures "Support (1)" == "Support " + GroupIdentifier(1)
  {
    assert IntToString(1) == "1";
  }

  /** Assigned at 09:00 and unassigned at 17:00: eight hours. */
  lemma ClosedStintScenario(now: int)
    ensures TimeSpent([AssignEntry("Support (1)", 9 * 3600), UnassignEntry("Support (1)", 17 * 3600)], 1, now)
         == 8 * 3600
  {
    SupportValue();
    ClosedStint("Support ", 1, 9 * 3600, 17 * 3600, now);
  }

  /** Assigned at 09:00 and still assigned at 09:00 the next day:
      twenty-four hours. */
  lemma OpenStintScenario()
    ensures TimeSpent([AssignEntry("Support (1)", 9 * 3600)], 1, 33 * 3600) == 24 * 3600
  {
    SupportValue();
    OpenStint("Support ", 1, 9 * 3600, 33 * 3600);
  }
}
