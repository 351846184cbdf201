/**
 * The input rules of the task manager (utils.py): which answers the prompts
 * accept, how menu digits map to stored values and sort keys, how the due
 * date is assembled, how the listing shortens long values, and the
 * yes/no confirmation before a deletion.
 *
 * A prompt reads from `inputs`, the lines the user will type, in order; it
 * returns the first acceptable line and how many lines it consumed.
 */
module TaskUtils {
  import opened Wrappers
  import opened Strings
  import opened TaskModel

  // ---------------------------------------------------------------------
  // Month, day and year
  // ---------------------------------------------------------------------

  /** The answers `enter_month` accepts. */
  const Months: seq<string> := ["1", "2", "3", "4", "5", "6", "7", "8", "9", "10", "11", "12"]

  predicate IsMonth(s: string) {
    s in Months
  }

  /** The accepted months are exactly the plain spellings of 1 to 12. */
  lemma MonthsAreNumbers(n: nat)
    requires 1 <= n <= 12
    ensures NatToString(n) == Months[n - 1]
    ensures ParseInt(Months[n - 1]) == Some(n)
  {
    if n >= 10 {
      assert NatToString(n) == NatToString(1) + [DigitChar(n % 10)];
    }
    ParseNatToString(n);
  }

  /** Days per month of a year without 29 February. */
  const DaysTable: map<string, nat> := map[
    "1" := 31, "2" := 28, "3" := 31, "4" := 30, "5" := 31, "6" := 30,
    "7" := 31, "8" := 31, "9" := 30, "10" := 31, "11" := 30, "12" := 31]

  function DaysInMonth(month: string): (days: nat)
    requires IsMonth(month)
    ensures month == "2" ==> days == 28
    ensures month in {"4", "6", "9", "11"} ==> days == 30
    ensures month !in {"2", "4", "6", "9", "11"} ==> days == 31
  {
    DaysTable[month]
  }

  function DaysBefore(m: nat): nat
    requires m <= 12
  {
    if m == 0 then 0 else DaysBefore(m - 1) + DaysInMonth(Months[m - 1])
  }

  /** The table describes a 365-day year. */
  lemma YearLength()
    ensures DaysBefore(12) == 365
  {
    assert DaysBefore(1) == 31;
    assert DaysBefore(2) == 59;
    assert DaysBefore(3) == 90;
    assert DaysBefore(4) == 120;
    assert DaysBefore(5) == 151;
    assert DaysBefore(6) == 181;
    assert DaysBefore(7) == 212;
    assert DaysBefore(8) == 243;
    assert DaysBefore(9) == 273;
    assert DaysBefore(10) == 304;
    assert DaysBefore(11) == 334;
  }

  /** An answer `enter_day(month)` accepts: an integer from 1 to the month's length. */
  predicate AcceptDay(month: string, s: string) {
    IsMonth(month) && ParseInt(s).Some? && 1 <= ParseInt(s).value <= DaysInMonth(month)
  }

  /** Every day of the month has an accepted spelling. */
  lemma EveryDayAccepted(month: string, d: nat)
    requires IsMonth(month) && 1 <= d <= DaysInMonth(month)
    ensures AcceptDay(month, NatToString(d))
  {
    ParseNatToString(d);
  }

  /** The earliest year `enter_year` accepts. */
  const MinYear := 2026

  /** An answer `enter_year` accepts: an integer not below 2026. */
  predicate AcceptYear(s: string) {
    ParseInt(s).Some? && ParseInt(s).value >= MinYear
  }

  // ---------------------------------------------------------------------
  // Priority, status and sort menus
  // ---------------------------------------------------------------------

  /** `priorities_dict`: "1" Low, "2" Medium, "3" High; any other answer is refused. */
  function PriorityChoice(choice: string): (priority: Option<string>)
    ensures priority.Some? <==> choice in {"1", "2", "3"}
    ensures priority.Some? ==> priority.value in {"Low", "Medium", "High"}
  {
    if choice == "1" then Some("Low")
    else if choice == "2" then Some("Medium")
    else if choice == "3" then Some("High")
    else None
  }

  /** `status_dict`: "1" Pending, "2" In Progress, "3" Completed; any other answer is refused. */
  function StatusChoice(choice: string): (status: Option<string>)
    ensures status.Some? <==> choice in {"1", "2", "3"}
    ensures status.Some? ==> status.value in {"Pending", "In Progress", "Completed"}
  {
    if choice == "1" then Some("Pending")
    else if choice == "2" then Some("In Progress")
    else if choice == "3" then Some("Completed")
    else None
  }

  /**
   * A chosen priority always has one of the three listing ranks, and the
   * menu runs opposite to the listing: option 3 (High) is listed first.
   */
  lemma PriorityChoiceRank(choice: string)
    requires PriorityChoice(choice).Some?
    ensures ParseInt(choice).Some?
    ensures PriorityRank(PriorityChoice(choice).value) == 4 - ParseInt(choice).value
  {
  }

  /** A chosen status always has one of the three listing ranks, in menu order. */
  lemma StatusChoiceRank(choice: string)
    requires StatusChoice(choice).Some?
    ensures ParseInt(choice).Some?
    ensures StatusRank(StatusChoice(choice).value) == ParseInt(choice).value
  {
  }

  /** `sort_map.get(choice)` in `list_tasks`. */
  function SortChoice(choice: string): (sortBy: Option<string>)
    ensures sortBy.Some? ==> sortBy.value in {"due_date", "priority", "status"}
  {
    if choice == "1" then Some("due_date")
    else if choice == "2" then Some("priority")
    else if choice == "3" then Some("status")
    else None
  }

  /** "1", "2" and "3" select the three orders; "4" and anything else keep store order. */
  lemma SortChoiceOrder(choice: string)
    ensures OrderFor(SortChoice(choice)) == DueDateAscending <==> choice == "1"
    ensures OrderFor(SortChoice(choice)) == PriorityRanked <==> choice == "2"
    ensures OrderFor(SortChoice(choice)) == StatusRanked <==> choice == "3"
    ensures OrderFor(SortChoice(choice)) == StoreOrder <==> choice !in {"1", "2", "3"}
  {
  }

  // ---------------------------------------------------------------------
  // Due date and listing cells
  // ---------------------------------------------------------------------

  /** `f"{year}-{month}-{day}"`: the raw answers joined, nothing padded. */
  function DueDate(year: string, month: string, day: string): (date: string)
    ensures |date| == |year| + |month| + |day| + 2
    ensures date[..|year|] == year && date[|year|] == '-'
    ensures date[|year| + 1..|year| + 1 + |month|] == month && date[|year| + 1 + |month|] == '-'
    ensures date[|date| - |day|..] == day
  {
    year + "-" + month + "-" + day
  }

  /** The three accepted answers can be read back from the due date. */
  lemma DueDateSplits(year: string, month: string, day: string)
    requires AcceptYear(year) && AcceptDay(month, day)
    ensures Split(DueDate(year, month, day), '-') == [year, month, day]
  {
    assert forall i :: 0 <= i < |Months| ==> '-' !in Months[i];
    var i :| 0 <= i < |Months| && Months[i] == month;
    assert '-' !in month;
    var parts := [year, month, day];
    assert parts[1..] == [month, day] && parts[1..][1..] == [day];
    assert Join(parts[1..][1..], '-') == day;
    assert Join(parts[1..], '-') == month + "-" + day;
    assert DueDate(year, month, day) == Join(parts, '-');
    SplitJoin([year, month, day], '-');
  }

  /** Unpadded dates are not in calendar order as strings: "2026-10-1" sorts before "2026-9-30". */
  lemma UnpaddedDueDateOrder()
    ensures LexLe(DueDate("2026", "10", "1"), DueDate("2026", "9", "30"))
    ensures !LexLe(DueDate("2026", "9", "30"), DueDate("2026", "10", "1"))
  {
    assert DueDate("2026", "10", "1")[5..] == "10-1";
    assert DueDate("2026", "9", "30")[5..] == "9-30";
  }

  /** `s[:n] if len(s) > n else s`. */
  function Truncate(s: string, n: nat): (r: string)
    ensures r <= s
    ensures |r| == if |s| > n then n else |s|
  {
    if |s| > n then s[..n] else s
  }

  const IdShown := 8
  const TitleWidth := 20
  const DescriptionWidth := 25

  /** The id cell of the listing: `task.id[:8] + "..."`. */
  function ShownId(id: string): (cell: string)
    ensures 3 <= |cell| <= IdShown + 3
    ensures cell[..|cell| - 3] <= id && cell[|cell| - 3..] == "..."
    ensures |id| >= IdShown ==> |cell| == IdShown + 3
    ensures |id| <= IdShown ==> cell == id + "..."
  {
    Truncate(id, IdShown) + "..."
  }

  /** The title and description cells: prefixes of at most 20 and 25 characters. */
  function ShownTitle(title: string): (cell: string)
    ensures cell <= title && |cell| <= TitleWidth
    ensures |title| <= TitleWidth ==> cell == title
  {
    Truncate(title, TitleWidth)
  }

  function ShownDescription(description: string): (cell: string)
    ensures cell <= description && |cell| <= DescriptionWidth
    ensures |description| <= DescriptionWidth ==> cell == description
  {
    Truncate(description, DescriptionWidth)
  }

  /** Typing the shown part of an id finds that task when no other id shares it. */
  lemma ShownIdFindsTask(rows: seq<Row>, k: nat)
    requires k < |rows|
    requires var shown := ShownId(rows[k].id);
      forall i :: 0 <= i < |rows| && i != k ==> !(shown[..|shown| - 3] <= rows[i].id)
    ensures var shown := ShownId(rows[k].id);
      Lookup(rows, shown[..|shown| - 3], false) == Some(rows[k])
  {
    var shown := ShownId(rows[k].id);
    LookupUniquePrefix(rows, k, shown[..|shown| - 3]);
  }

  // ---------------------------------------------------------------------
  // Delete confirmation
  // ---------------------------------------------------------------------

  datatype Confirmation = Yes | No | Invalid

  /** An answer to the delete prompt, lower-cased and then stripped. */
  function Decide(answer: string): Confirmation {
    var a := Strip(Lower(answer));
    if a == "yes" then Yes else if a == "no" then No else Invalid
  }

  /** Stripping before lower-casing would give the same decision. */
  lemma DecideEitherOrder(answer: string)
    ensures Decide(answer) == Yes <==> Lower(Strip(answer)) == "yes"
    ensures Decide(answer) == No <==> Lower(Strip(answer)) == "no"
  {
    StripLowerCommute(answer);
  }

  predicate IsDecisive(answer: string) {
    Decide(answer) != Invalid
  }

  /** The case of an answer does not change the decision. */
  lemma DecideIgnoresCase(answer: string)
    ensures Decide(Lower(answer)) == Decide(answer)
  {
    LowerIdempotent(answer);
  }

  /** Whitespace around an answer does not change the decision. */
  lemma DecideIgnoresSpace(pre: string, word: string, post: string)
    requires AllSpace(pre) && AllSpace(post)
    requires word != [] && !IsSpace(word[0]) && !IsSpace(word[|word| - 1])
    ensures Decide(pre + word + post) == Decide(word)
  {
    StripLowerCommute(pre + word + post);
    StripLowerCommute(word);
    StripAround(pre, word, post);
    StripAround([], word, []);
    assert [] + word + [] == word;
  }

  /** A spaced, upper-case yes is a yes. */
  lemma DecideSpacedYes()
    ensures Decide(" YES\n") == Yes
  {
    DecideIgnoresSpace(" ", "YES", "\n");
    assert " " + "YES" + "\n" == " YES\n";
    DecideIgnoresSpace([], "yes", []);
    assert [] + "yes" + [] == "yes";
    assert Lower("YES") == "yes";
  }

  // ---------------------------------------------------------------------
  // The prompt loops
  // ---------------------------------------------------------------------

  /** `while True: user = input(); if accept(user): return user`. */
  method ReadUntil(inputs: seq<string>, accept: string -> bool) returns (k: nat)
    requires exists i :: 0 <= i < |inputs| && accept(inputs[i])
    ensures k < |inputs| && accept(inputs[k])
    ensures forall j :: 0 <= j < k ==> !accept(inputs[j])
  {
    k := 0;
    while !accept(inputs[k])
      invariant k < |inputs|
      invariant forall j :: 0 <= j < k ==> !accept(inputs[j])
      invariant exists i :: k <= i < |inputs| && accept(inputs[i])
      decreases |inputs| - k
    {
      k := k + 1;
    }
  }

  /** `enter_month()`: the first answer among "1" to "12". */
  method EnterMonth(inputs: seq<string>) returns (month: string, consumed: nat)
    requires exists i :: 0 <= i < |inputs| && IsMonth(inputs[i])
    ensures 0 < consumed <= |inputs| && month == inputs[consumed - 1]
    ensures IsMonth(month)
    ensures forall j :: 0 <= j < consumed - 1 ==> !IsMonth(inputs[j])
  {
    var k := ReadUntil(inputs, IsMonth);
    month, consumed := inputs[k], k + 1;
  }

  /** `enter_day(month)`: the first answer that is a day of that month. */
  method EnterDay(month: string, inputs: seq<string>) returns (day: string, consumed: nat)
    requires IsMonth(month)
    requires exists i :: 0 <= i < |inputs| && AcceptDay(month, inputs[i])
    ensures 0 < consumed <= |inputs| && day == inputs[consumed - 1]
    ensures ParseInt(day).Some? && 1 <= ParseInt(day).value <= DaysInMonth(month)
    ensures forall j :: 0 <= j < consumed - 1 ==> !AcceptDay(month, inputs[j])
  {
    var k := ReadUntil(inputs, s => AcceptDay(month, s));
    day, consumed := inputs[k], k + 1;
  }

  /** `enter_year()`: the first answer that is a year from 2026 on. */
  method EnterYear(inputs: seq<string>) returns (year: string, consumed: nat)
    requires exists i :: 0 <= i < |inputs| && AcceptYear(inputs[i])
    ensures 0 < consumed <= |inputs| && year == inputs[consumed - 1]
    ensures ParseInt(year).Some? && ParseInt(year).value >= MinYear
    ensures forall j :: 0 <= j < consumed - 1 ==> !AcceptYear(inputs[j])
  {
    var k := ReadUntil(inputs, AcceptYear);
    year, consumed := inputs[k], k + 1;
  }

  predicate IsMenuDigit(s: string) {
    s in {"1", "2", "3"}
  }

  /** `enter_priority()`: the priority named by the first answer among "1", "2", "3". */
  method EnterPriority(inputs: seq<string>) returns (priority: string, consumed: nat)
    requires exists i :: 0 <= i < |inputs| && IsMenuDigit(inputs[i])
    ensures 0 < consumed <= |inputs| && PriorityChoice(inputs[consumed - 1]) == Some(priority)
    ensures priority in {"Low", "Medium", "High"}
    ensures forall j :: 0 <= j < consumed - 1 ==> PriorityChoice(inputs[j]).None?
  {
    var k := ReadUntil(inputs, IsMenuDigit);
    priority, consumed := PriorityChoice(inputs[k]).value, k + 1;
  }

  /** `enter_status()`: the status named by the first answer among "1", "2", "3". */
  method EnterStatus(inputs: seq<string>) returns (status: string, consumed: nat)
    requires exists i :: 0 <= i < |inputs| && IsMenuDigit(inputs[i])
    ensures 0 < consumed <= |inputs| && StatusChoice(inputs[consumed - 1]) == Some(status)
    ensures status in {"Pending", "In Progress", "Completed"}
    ensures forall j :: 0 <= j < consumed - 1 ==> StatusChoice(inputs[j]).None?
  {
    var k := ReadUntil(inputs, IsMenuDigit);
    status, consumed := StatusChoice(inputs[k]).value, k + 1;
  }

  // ---------------------------------------------------------------------
  // Task manager operations built on the store
  // ---------------------------------------------------------------------

  /** The position of the first answer that is a yes or a no. */
  function FirstDecisive(answers: seq<string>): (k: nat)
    requires exists i :: 0 <= i < |answers| && IsDecisive(answers[i])
    ensures k < |answers| && IsDecisive(answers[k])
    ensures forall j :: 0 <= j < k ==> !IsDecisive(answers[j])
  {
    if IsDecisive(answers[0]) then 0
    else
      var i :| 0 <= i < |answers| && IsDecisive(answers[i]);
      assert answers[1..][i - 1] == answers[i];
      1 + FirstDecisive(answers[1..])
  }

  /** What `delete_task` returns, how many answers it reads, and the table it leaves. */
  datatype DeleteOutcome = DeleteOutcome(deleted: bool, consumed: nat, rows: seq<Row>)

  /**
   * `delete_task()` after the id has been typed: no task found means no
   * question and no change; otherwise the first yes-or-no answer decides,
   * and only a yes deletes (unless the store fails).
   */
  function DeleteTaskOutcome(rows: seq<Row>, taskId: string, answers: seq<string>,
                             getError: bool, deleteError: bool): DeleteOutcome
    requires Lookup(rows, taskId, getError).Some? ==>
      exists i :: 0 <= i < |answers| && IsDecisive(answers[i])
  {
    var found := Lookup(rows, taskId, getError);
    if found.None? then DeleteOutcome(false, 0, rows)
    else
      var k := FirstDecisive(answers);
      if Decide(answers[k]) == Yes && !deleteError then DeleteOutcome(true, k + 1, DeleteWhere(rows, found.value.id))
      else DeleteOutcome(false, k + 1, rows)
  }

  /** A task is deleted only after a yes, and then exactly its rows go. */
  lemma DeletedOnlyAfterYes(rows: seq<Row>, taskId: string, answers: seq<string>, getError: bool, deleteError: bool)
    requires Lookup(rows, taskId, getError).Some? ==>
      exists i :: 0 <= i < |answers| && IsDecisive(answers[i])
    ensures var out := DeleteTaskOutcome(rows, taskId, answers, getError, deleteError);
      out.deleted ==>
        && 0 < out.consumed <= |answers|
        && Decide(answers[out.consumed - 1]) == Yes
        && (forall j :: 0 <= j < out.consumed - 1 ==> !IsDecisive(answers[j]))
        && out.rows == DeleteWhere(rows, Lookup(rows, taskId, getError).value.id)
  {
  }

  /** Without a yes (a no, an unknown id, or a store failure) the table is untouched. */
  lemma UndeletedKeepsTable(rows: seq<Row>, taskId: string, answers: seq<string>, getError: bool, deleteError: bool)
    requires Lookup(rows, taskId, getError).Some? ==>
      exists i :: 0 <= i < |answers| && IsDecisive(answers[i])
    ensures var out := DeleteTaskOutcome(rows, taskId, answers, getError, deleteError);
      !out.deleted ==> out.rows == rows
  {
  }

  /** When the task exists, the prompt repeats until the first yes or no, and a no cancels. */
  lemma DeletePromptsUntilDecisive(rows: seq<Row>, taskId: string, answers: seq<string>, getError: bool, deleteError: bool)
    requires Lookup(rows, taskId, getError).Some?
    requires exists i :: 0 <= i < |answers| && IsDecisive(answers[i])
    ensures var out := DeleteTaskOutcome(rows, taskId, answers, getError, deleteError);
      && 0 < out.consumed <= |answers|
      && IsDecisive(answers[out.consumed - 1])
      && (forall j :: 0 <= j < out.consumed - 1 ==> !IsDecisive(answers[j]))
      && (Decide(answers[out.consumed - 1]) == No ==> !out.deleted)
      && (Decide(answers[out.consumed - 1]) == Yes ==> out.deleted == !deleteError)
  {
  }

  /** After a confirmed deletion of a task whose id no other id extends, the id is no longer found. */
  lemma DeletedTaskIsGone(rows: seq<Row>, taskId: string, answers: seq<string>, getError: bool, deleteError: bool)
    requires Lookup(rows, taskId, getError).Some? ==>
      exists i :: 0 <= i < |answers| && IsDecisive(answers[i])
    requires forall i :: 0 <= i < |rows| ==> |rows[i].id| == 36
    ensures var out := DeleteTaskOutcome(rows, taskId, answers, getError, deleteError);
      out.deleted ==> Lookup(out.rows, Lookup(rows, taskId, getError).value.id, false).None?
  {
    var found := Lookup(rows, taskId, getError);
    if found.Some? {
      DeleteThenLookupFixedLength(rows, found.value.id);
    }
  }

  /** `delete_task()` after the id has been typed. */
  method DeleteTask(store: Store, taskId: string, answers: seq<string>, getError: bool, deleteError: bool)
    returns (deleted: bool, consumed: nat)
    requires Lookup(store.rows, taskId, getError).Some? ==>
      exists i :: 0 <= i < |answers| && IsDecisive(answers[i])
    modifies store
    ensures DeleteOutcome(deleted, consumed, store.rows)
         == DeleteTaskOutcome(old(store.rows), taskId, answers, getError, deleteError)
  {
    var task := Task.Get(store, taskId, getError);
    if task == null {
      return false, 0;
    }
    var k := ReadUntil(answers, IsDecisive);
    assert k == FirstDecisive(answers);
    consumed := k + 1;
    if Decide(answers[k]) == Yes {
      deleted := task.Delete(store, deleteError);
    } else {
      deleted := false;
    }
  }

  /** `mark_completed()` after the id has been typed: sets the found task's status to Completed. */
  method MarkCompleted(store: Store, taskId: string, getError: bool, updateError: bool)
    returns (task: Task?)
    modifies store
    ensures Lookup(old(store.rows), taskId, getError).None? ==> task == null && store.rows == old(store.rows)
    ensures Lookup(old(store.rows), taskId, getError).Some? ==>
      var found := Lookup(old(store.rows), taskId, getError).value;
      if updateError then task == null && store.rows == old(store.rows)
      else (task != null && task.Fields() == found.(status := "Completed")
            && store.rows == UpdateWhere(old(store.rows), found.id, Status, "Completed"))
  {
    task := Task.Get(store, taskId, getError);
    if task == null {
      return;
    }
    var ok := task.UpdateStatus(store, "Completed", updateError);
    if !ok {
      task := null;
    }
  }
}
