# Assignment time of a support group on a service-desk ticket

This project models the deterministic core of a small tool. The tool reads a
GLPI ticket's audit log and works out how long one support group was
assigned to the ticket. It also summarises stored per-ticket durations by
group. The model covers two source files:

- `main.py`:
  - classifying a log entry as an assignment or unassignment of a group;
  - checking whether a group is among a ticket's current group rows;
  - `calculate_time_spent`, which sorts the log by date and replays it as a
    two-state machine (unassigned, or assigned since t) to total the group's
    stints, counting a stint still open up to "now".
- `analysis.py`:
  - `seconds_to_hm`;
  - the loop that groups (group name, seconds) rows into a dictionary of
    lists;
  - the order and counts of the per-group report.

Timestamps are whole seconds. The wall clock is a parameter `now`.

Files:

- `option.dfy` (module `Options`): the `Option` type and `GetOr`, which is
  `dict.get` with a default.
- `decimal.dfy` (module `Decimal`): Python's `str(int)` as used in f-strings,
  with its inverse `Value`.
- `strings.dfy` (module `Strings`): Python's `needle in s` on strings
  (`Contains`) and Python's string order `a < b` (`Less`), with the lemmas
  showing that `Less` is a strict total order.
- `ticket_log.dfy` (module `TicketLog`): the `main.py` core.
  - `SortByDate` is the stable sort. It is proved sorted, a permutation, and
    order-preserving within each date. `StableSortUnique` proves that only
    one sequence has all three properties.
  - `Step`, `Replay` and `Close` are the state machine written as functions.
    `TimeSpent` puts the sort and the replay together.
  - `AccumulateStints` is the source's loop, written with the source's own
    locals (`totalDuration`, `lastAssignDate`, `isAssigned`).
    `CalculateTimeSpent` is the whole function. Both are proved equal to the
    functions above.
  - The remaining lemmas state the behaviour the source promises.
- `analysis.dfy` (module `Analysis`): the `analysis.py` core.
  - `GroupDurations` is the grouping loop over a local map.
  - `SortNames` is `sorted` on the group names.
  - `Report` is the report loop, including its `if not times: continue`
    guard.
  - `GroupReport` puts them together, as `analyze_group_times_db` does minus
    the database and the statistics.

`calculate_time_spent` tracks one target group per call. It matches the
literal text `(<id>)` anywhere in the value field, and it returns only a
total duration. `IdTextInNameAlsoMatches` records what this substring match
does with a display name that itself contains an id.

## Model

| member | source | states |
|---|---|---|
| `Options.GetOr` | main.py:66 | `d.get(key, default)`: the stored value when the key is present, the default otherwise |
| `TicketLog.RowMatches` | main.py:66 | a row with both keys matches exactly when they equal the group and the type; a row with neither key matches only group 0, type 0 |
| `TicketLog.IsGroupCurrentlyAssigned` | main.py:63-68 | true exactly when some row has `groups_id` equal to the group and `type` equal to the type, a missing key read as 0 |
| `TicketLog.GroupIdentifier` | main.py:73 | the searched text is '(' then the id's digits (and sign) then ')' |
| `TicketLog.ValueField` | main.py:78-79 | an assignment reads `new_value`, any other action `old_value`; a missing field reads as "" |
| `TicketLog.IsGroupAction` | main.py:71-79 | true only if `itemtype_link` is `'Group'` and `linked_action` (missing read as 0) equals the requested action, and the text `(<id>)` occurs in the value field |
| `TicketLog.IsGroupActionWhenOccurs` | main.py:75-79 | the converse: an entry of the right link type and action whose value field holds `(<id>)` at any position is classified as that group's action |
| `TicketLog.ValueFieldChoice` | main.py:78 | an assignment is decided by `new_value` alone, an unassignment by `old_value` alone |
| `TicketLog.MissingValueNeverMatches` | main.py:79 | a missing value field reads as "" and never matches |
| `TicketLog.WellFormedValueMatchesOnlyItsGroup` | main.py:73-79 | for a value `<name>(<id>)` whose name has no '(', the entry is an action of group h if and only if h is that id; so "(1)" does not match "(11)" |
| `TicketLog.IdTextInNameAlsoMatches` | main.py:73-79 | the match is on text: "Legacy (2) (5)" is an action of both group 2 and group 5 |
| `TicketLog.AssignAndUnassignExclusive` | main.py:102-109 | no entry is both an assignment and an unassignment, so the `elif` order does not matter |
| `Decimal.IntToStringInjective` | main.py:73 | distinct group ids give distinct identifier texts |
| `Decimal.ValueOfNatToString` | analysis.py:13 | the decimal text of n reads back as n |
| `Decimal.NatToString` | analysis.py:13 | the decimal text of a number is non-empty, all digits, without a leading zero |
| `Strings.Less` | analysis.py:50 | Python's string `<` as `sorted` applies it: a proper prefix comes first, and no string comes before itself |
| `Strings.Contains` | main.py:79 | Python's `in`: true exactly when the needle occurs at some position |
| `TicketLog.SortByDate` | main.py:90 | the replay order is sorted by date, a permutation of the log, and keeps the log's order among entries of the same date |
| `TicketLog.StableSortUnique` | main.py:90 | two date-sorted sequences with the same entries per date in the same order are equal, so the order above is the only one a stable sort can give |
| `TicketLog.Step` | main.py:101-114 | one entry of the replay: an entry not about the group changes nothing, an open stint is never restarted, a stint opens only on an assignment at its date, and the total grows only when an unassignment closes a stint, by the stint's length |
| `TicketLog.Replay` | main.py:98-115 | the state after applying `Step` to each entry in order; its properties are the lemmas below |
| `TicketLog.Close` | main.py:117-121 | closed time is not touched by the clock; an open stint adds exactly the time from its start to `now` |
| `TicketLog.TimeSpent` | main.py:82-124 | the replay of the date-sorted log from (0, unassigned), closed at `now`; never negative when `now` is no earlier than every entry |
| `TicketLog.AccumulateStints` | main.py:92-124 | the loop's total equals the replay of the state machine over the sorted log, closed at `now`; its invariant keeps `is_assigned` true exactly when `last_assign_date` is set |
| `TicketLog.CalculateTimeSpent` | main.py:82-124 | the result is the time the group held the ticket per its sorted log, and is never negative when `now` is no earlier than any entry |
| `TicketLog.OpenStintKeepsStart` | main.py:102-106 | while a stint is open, anything but an unassignment of the group (repeated assignments included) leaves the total and the stint start unchanged: the first assignment wins |
| `TicketLog.RepeatedAssignsCollapse` | main.py:102-106 | a run of assignments opens one stint, at the first one's date |
| `TicketLog.IdleIgnoresUnassign` | main.py:109-110 | with no stint open, anything but an assignment of the group (an unmatched unassignment included) changes neither the total nor the state |
| `TicketLog.StintAddsItsLength` | main.py:109-114 | an assignment at t1, then no unassignment, then an unassignment at t2 adds exactly t2 - t1 and returns to unassigned |
| `TicketLog.NoAssignNoTime` | main.py:92-124 | a log with no assignment of the group yields a zero total |
| `TicketLog.OpenStintCountedOnce` | main.py:117-121 | a stint still open after the loop is counted once up to `now`: moving `now` moves the total by the same amount if and only if a stint is open |
| `TicketLog.ReplayNeverLosesTime` | main.py:98-115 | replaying a date-sorted log never lowers the total, and an open stint began no later than any bound on the dates |
| `TicketLog.OpenStintStartsAtAssign` | main.py:102-106 | a stint open after the replay was already open before it, or began at the date of an assignment of the group in the log |
| `TicketLog.ClosedStint` | main.py:98-124 | a well-formed assignment at t1 and unassignment at t2 >= t1 give exactly t2 - t1, whatever `now` is |
| `TicketLog.OpenStint` | main.py:98-124 | a well-formed assignment at t1 never unassigned gives now - t1 |
| `TicketLog.ClosedStintScenario` | main.py:98-115 | "Support (1)" assigned 09:00, unassigned 17:00: 8 hours for group 1 |
| `TicketLog.OpenStintScenario` | main.py:117-121 | "Support (1)" assigned 09:00 and still assigned at 09:00 next day: 24 hours |
| `Analysis.HoursMinutes` | analysis.py:11-12 | minutes are in 0..59 and h*3600 + m*60 <= s < h*3600 + m*60 + 60: the conversion truncates by less than a minute |
| `Analysis.HoursMinutesExact` | analysis.py:11-12 | those bounds determine hours and minutes uniquely, so they are s div 3600 and (s mod 3600) div 60 |
| `Analysis.SecondsToHm` | analysis.py:9-13 | the text is the hours, "h ", the minutes and "m" |
| `Analysis.SecondsToHmRoundTrip` | analysis.py:13 | the text reads back as exactly the hours and minutes it was made from |
| `Analysis.GroupNames` | analysis.py:41-42 | a name is in the set exactly when some row carries it |
| `Analysis.DurationsOf` | analysis.py:37-43 | the list built for a group: no longer than the rows, and every duration in it comes from a row of that group |
| `Analysis.DurationsOfEmptyIffAbsent` | analysis.py:41-43 | a group's list is empty exactly when no row carries its name |
| `Analysis.GroupDurations` | analysis.py:37-43 | the dictionary's keys are the rows' group names, each list holds that group's durations in row order, and no list is empty |
| `Analysis.MinName` | analysis.py:50 | the least name of a non-empty set: a member that comes before every other member |
| `Analysis.SortNames` | analysis.py:50 | every key once, in strictly ascending Python string order |
| `Strings.LessTotal` | analysis.py:50 | any two distinct names are ordered one way or the other |
| `Strings.LessTransitive` | analysis.py:50 | the string order is transitive |
| `Analysis.Report` | analysis.py:50-61 | lines in ascending name order, one per group with a non-empty list, each count the length of that group's list |
| `Analysis.RowsConserved` | analysis.py:37-56 | with each group listed once, the list lengths add up to the number of rows |
| `Analysis.GroupReport` | analysis.py:15-61 | every group of the rows is reported exactly once, in ascending order, with its number of rows; the counts add up to the number of rows, so the `if not times` guard never skips a group |

## Left out

- `glpi_methods.py` is not part of this model: HTTP calls, authentication headers, proxies and environment variables.
- `GLPISession`, `check_group_assignment`, `analyze_ticket_time` and `main` in `main.py` only authenticate, fetch and print. They are not modelled.
- The `print` calls inside `calculate_time_spent` are console output only and are not modelled.
- `datetime.datetime.now()` at main.py:119 becomes the parameter `now`.
- `parse_glpi_date` and `format_datetime` are not modelled. Timestamps are integer seconds.
- The source sorts on the raw `date_mod` string. The model sorts on the integer. The two orders agree because the date format is fixed-width.
- A missing `date_mod` makes the source raise. In the model every entry has a date.
- A `new_value`/`old_value` present with a null value makes `is_group_action` raise at main.py:79. The model has no null: only a missing field reads as "", and it never matches.
- `int(...)` on API fields is taken as already done: the fields are integers. A non-numeric string, which makes the source raise, is not modelled.
- In `analysis.py`, the SQLite connections and queries are not modelled. The date filter of `analyze_tickets_with_assignments_since` is not modelled either. Its grouping loop (lines 113-119) and report loop (lines 128-139) are the same code as lines 37-61, so `GroupDurations` and `Report` model both copies.
- `statistics.mean` and `statistics.median` produce floats and are not modelled. The report lines carry the group name and the count only.
- The `calendar.monthrange` loop under `__main__` is not modelled.
- `Analysis.HoursMinutes` takes natural numbers only. The source also receives float means and negative values, which are not modelled.
- Group names in the rows are strings. A NULL name, which would make `sorted` fail when mixed with strings, is not modelled.
