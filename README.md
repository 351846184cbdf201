# Task manager core in Dafny

This project models the core of a small command-line task manager. Tasks are
records with seven text fields: id, title, description, due date, priority,
status and creation time. They live in a `tasks` table. The `Task` class
saves a task, looks one up by the first characters of its id, lists all
tasks in one of four orders, updates details or status, and deletes a task.
The `TaskManager` helpers decide which answers at the prompts reach the
table. They cover:

- the month, day, year, priority and status prompts;
- the sort menu;
- the assembled due date;
- the shortened listing cells;
- the yes/no question before a deletion.

Layout:

- `wrappers.dfy` (`Wrappers`): the `Option` type, standing for Python's `None`.
- `strings.dfy` (`Strings`): the text operations the core relies on:
  - code-point string order;
  - `int()` on decimal literals;
  - `lower()` and `strip()`;
  - splitting on a separator.
- `task_model.dfy` (`TaskModel`), from `models/task.py`:
  - the `Row` datatype and the pure queries `Lookup` (`Task.get`) and `GetAll` (`Task.get_all`);
  - the `Store` class, whose `rows` sequence stands for the table;
  - the `Task` class, whose methods update its fields and the store in place.
- `task_utils.dfy` (`TaskUtils`), from `utils.py`:
  - the accept predicates and the menu maps;
  - each `while True` prompt loop, as a method over the sequence of lines the user types;
  - `DeleteTask` and `MarkCompleted` on top of the store.

Modelling decisions:

- **Store failures.** The source catches database exceptions and answers `False`, `None` or `[]`. Here a `storeError` flag (or `getError`, `updateError`, `deleteError`) takes the exception's place.
- **Ids and timestamps.** The id (a random UUID) and the creation timestamp are ordinary parameters.
- **Construction.** The constructor checks nothing (models/task.py:36-42). A priority such as "Urgent" is stored as given. The listing then ranks it 4, after Low (`PriorityScenario`).
- **Due dates.** The due date is the three answers joined with `-`, with no zero padding (utils.py:56). The model compares due dates as strings. So "2026-10-1" is listed before "2026-9-30" (`UnpaddedDueDateOrder`). The model does not claim chronological order.
- **Prefix lookup.** `Task.get` matches the typed text as a plain, case-sensitive prefix of the id.
- **Delete confirmation.** `Decide` lower-cases the answer and then strips it, as the source does. `DecideEitherOrder` proves that stripping first would give the same decision.

## Model

| member | source | states |
|---|---|---|
| TaskModel.Task.constructor | models/task.py:24-42 | The new task holds exactly the seven values given; no value is checked or rejected. |
| TaskModel.Task.Fields | models/task.py:155-157 | The row a task is stored as: its seven fields in column order, the priority in `priority_level`; `Task.Save` appends exactly this row and `Task.Get` rebuilds it. |
| TaskModel.Task.Get | models/task.py:44-75 | Null exactly when no id starts with the prefix or the store fails; otherwise a fresh task whose seven fields are the first matching row's columns, in order. |
| TaskModel.Lookup | models/task.py:56-75 | None on a store failure; otherwise None exactly when no id starts with the prefix; a found row is in the table and its id starts with the prefix. |
| TaskModel.FirstWithPrefix | models/task.py:58-59 | The row returned is the first in store order whose id starts with the prefix: no earlier row matches. |
| TaskModel.LookupUniquePrefix | models/task.py:58-71 | A prefix that only one row's id starts with finds that row. |
| TaskModel.SaveThenLookup | models/task.py:58-71 | After appending a row whose id no stored id starts with, looking up its full id gives back all seven fields. |
| TaskModel.GetAll | models/task.py:77-141 | The empty list on a store failure; otherwise every row exactly once (same multiset, same length), sorted by the order `sort_by` selects; with no recognised key, the table order unchanged. |
| TaskModel.OrderFor | models/task.py:94-121 | The table order is kept exactly when `sort_by` is none of "due_date", "priority" and "status"; `SortChoiceOrder` says which answer selects which order. |
| TaskModel.PriorityRank | models/task.py:99-107 | High 1, Medium 2, Low 3; every other value 4. |
| TaskModel.StatusRank | models/task.py:110-118 | Pending 1, In Progress 2, Completed 3; every other value 4. |
| TaskModel.PrecedesTotal | models/task.py:94-118 | Under each of the four orders, any two rows are comparable. |
| TaskModel.PrecedesTransitive | models/task.py:94-118 | Each of the four orders is transitive. |
| TaskModel.Insert | models/task.py:94-121 | Inserting into a sorted listing keeps it sorted and adds exactly that row. |
| TaskModel.Sort | models/task.py:94-121 | The result is a permutation of the input, sorted under the chosen order. |
| TaskModel.PriorityListing | models/task.py:97-107 | Listing by priority puts every row of a better rank (High, then Medium, then Low, then anything else) before every row of a worse rank. |
| TaskModel.StatusListing | models/task.py:108-118 | Listing by status puts Pending, then In Progress, then Completed, then anything else. |
| TaskModel.DueDateListing | models/task.py:94-96 | Listing by due date is ascending in the string order of the column. |
| TaskModel.PriorityScenario | models/task.py:97-107 | Of two stored rows, the better-ranked priority is listed first, including an unchecked value (rank 4) stored before a Low one. |
| Strings.LexLeTotal | models/task.py:96 | The string order used for due dates is total. |
| Strings.LexLeTransitive | models/task.py:96 | The string order used for due dates is transitive. |
| Strings.LexLeAntisymmetric | models/task.py:96 | Two due dates that sort no later than each other are equal. |
| Strings.LexLe | models/task.py:96 | The order `ORDER BY due_date ASC` compares by, taken as code-point order; `LexLeTotal`, `LexLeTransitive` and `LexLeAntisymmetric` prove it a total order. |
| TaskModel.Store.ExecuteInsert | models/task.py:154-160 | The table gains the row at the end and nothing else changes. |
| TaskModel.Store.ExecuteUpdate | models/task.py:184-222 | The five `UPDATE ... WHERE id = %s` statements (lines 184, 189, 194, 199 and 222): every row with the id gets the column set; every other row is unchanged. |
| TaskModel.UpdateWhere | models/task.py:184-222 | Same length; each row with the id has the one column set and keeps its id and created_at; every other row is unchanged. |
| TaskModel.Store.ExecuteDelete | models/task.py:241-243 | The table loses exactly the rows with the id. |
| TaskModel.Task.Save | models/task.py:143-164 | True and exactly one row appended (the seven fields, in column order) on success; False and the table unchanged on a store failure; when no stored id starts with the task's id, the saved task is then found by its full id. |
| TaskModel.DetailsUpdated | models/task.py:182-199 | Same length; in rows with the id, each supplied value replaces its column (priority into `priority_level`), id, status and created_at kept; other rows unchanged. |
| TaskModel.Task.UpdateDetails | models/task.py:166-206 | Each supplied value replaces the object's field; id, status and created_at are kept; the table becomes `DetailsUpdated`; a task in step with its rows stays so. |
| TaskModel.Task.UpdateStatus | models/task.py:208-228 | The object takes the new status even when the store fails; only the status changes; the rows with the id take it exactly when the store succeeds; the object stays in step with its rows. |
| TaskModel.DeleteWhere | models/task.py:241 | Every kept row was in the table with a different id, and every row with a different id is kept. |
| TaskModel.DeleteWhereCounts | models/task.py:241 | Deleting removes every copy of the rows with the id and keeps every other row with its multiplicity. |
| TaskModel.DeleteWhereAppend | models/task.py:241 | Deleting works piece by piece, so the kept rows stay in their original order. |
| TaskModel.DeleteWhereAbsent | models/task.py:241 | Deleting an id no row has leaves the table unchanged. |
| TaskModel.Task.Delete | models/task.py:230-247 | True and exactly the rows with the task's id removed on success; False and the table unchanged on a store failure. |
| TaskModel.DeleteThenLookup | models/task.py:58 | After a delete, a lookup of the deleted id finds only a row whose id is longer than it. |
| TaskModel.DeleteThenLookupFixedLength | models/task.py:58 | With all ids the same length, as UUIDs are, a deleted id is not found again. |
| Strings.ParseNatToString | utils.py:336-341 | `int()` reads back the plain decimal spelling of every natural number. |
| Strings.ParseInt | utils.py:336-359 | `int()` as `enter_day` and `enter_year` use it (lines 341 and 359): a value only for a non-empty optional sign and digits, never a positive value with a minus sign; `ParseNatToString` reads back every natural number. |
| TaskUtils.MonthsAreNumbers | utils.py:295 | The accepted months are exactly the plain spellings of 1 to 12. |
| TaskUtils.IsMonth | utils.py:313 | The test `user not in numbered_dates`; `MonthsAreNumbers` shows the accepted answers are the spellings of 1 to 12, and `EnterMonth` returns only such an answer. |
| TaskUtils.DaysInMonth | utils.py:332-336 | February 28 days; April, June, September and November 30; the other months 31. |
| TaskUtils.YearLength | utils.py:332-335 | The table adds up to a 365-day year. |
| TaskUtils.EveryDayAccepted | utils.py:338-344 | Every day from 1 to the month's length is accepted for that month. |
| TaskUtils.AcceptDay | utils.py:341 | The test of `enter_day`: the answer parses to an integer from 1 to the month's length; `EveryDayAccepted` shows every such day is accepted, and `EnterDay` returns only such an answer. |
| TaskUtils.AcceptYear | utils.py:359 | The test of `enter_year`: the answer parses to an integer of at least 2026; `EnterYear` returns only such an answer. |
| TaskUtils.ReadUntil | utils.py:297-318 | Returns the first acceptable line, and every earlier line was refused. |
| TaskUtils.EnterMonth | utils.py:285-318 | Returns the first line among "1" to "12"; every earlier line was refused. |
| TaskUtils.EnterDay | utils.py:321-346 | Returns the first line whose integer value is from 1 to the month's length; every earlier line was refused. |
| TaskUtils.EnterYear | utils.py:348-363 | Returns the first line whose integer value is 2026 or later; every earlier line was refused. |
| TaskUtils.PriorityChoice | utils.py:374-387 | Defined exactly for "1", "2" and "3", and then one of Low, Medium and High. |
| TaskUtils.IsMenuDigit | utils.py:385 | The tests `user not in priorities_num` and `user not in statuses_num` (line 411); `PriorityChoice` and `StatusChoice` are defined exactly on these answers. |
| TaskUtils.PriorityChoiceRank | utils.py:376 | The menu runs opposite to the listing: option n has rank 4 - n, so option 3 (High) is listed first. |
| TaskUtils.EnterPriority | utils.py:365-389 | Returns the priority named by the first line among "1", "2" and "3"; every earlier line was refused. |
| TaskUtils.StatusChoice | utils.py:400-413 | Defined exactly for "1", "2" and "3", and then one of Pending, In Progress and Completed. |
| TaskUtils.StatusChoiceRank | utils.py:402 | Option n has listing rank n. |
| TaskUtils.EnterStatus | utils.py:391-415 | Returns the status named by the first line among "1", "2" and "3"; every earlier line was refused. |
| TaskUtils.SortChoice | utils.py:99-107 | Only ever names one of the three sort keys. |
| TaskUtils.SortChoiceOrder | utils.py:99-107 | "1" selects due date, "2" priority and "3" status; "4" and every other answer keep the table order. |
| TaskUtils.DueDate | utils.py:56 | `f"{year}-{month}-{day}"` (also line 186): the year, a dash, the month, a dash, the day, nothing padded; `DueDateSplits` reads the three answers back. |
| TaskUtils.DueDateSplits | utils.py:56 | The year, month and day that were accepted can be read back from the due date by splitting on `-`. |
| Strings.SplitJoin | utils.py:56 | Splitting undoes joining when no part contains the separator. |
| TaskUtils.UnpaddedDueDateOrder | utils.py:56 | Because nothing is padded, "2026-10-1" sorts before "2026-9-30" as a string. |
| TaskUtils.Truncate | utils.py:122-123 | The result is a prefix of the text, of length n when the text is longer than n and the whole text otherwise. |
| TaskUtils.ShownId | utils.py:121 | The id cell is a prefix of at most 8 characters of the id followed by "..."; exactly 11 characters when the id has at least 8, and the whole id followed by "..." when it has at most 8. |
| TaskUtils.ShownTitle | utils.py:122 | A prefix of the title of at most 20 characters; the whole title when it fits. |
| TaskUtils.ShownDescription | utils.py:123 | A prefix of the description of at most 25 characters; the whole description when it fits. |
| TaskUtils.ShownIdFindsTask | utils.py:121 | Typing the shown part of an id finds that task when no other id starts with it. |
| Strings.Lower | utils.py:263 | `str.lower()`: same length; `LowerSpec` and `LowerIdempotent` state what changes. |
| Strings.TrimStart | utils.py:263 | The leading half of `strip()`, no longer than its input; `TrimStartSpec` states what is removed. |
| Strings.TrimEnd | utils.py:263 | The trailing half of `strip()`, no longer than its input; `TrimEndSpec` states what is removed. |
| Strings.Strip | utils.py:263 | `str.strip()`, no longer than its input; `StripSpec`, `StripAround` and `StripLowerCommute` state what it keeps. |
| Strings.LowerSpec | utils.py:263 | Lower-casing leaves no upper-case letter and changes no other character. |
| Strings.TrimStartSpec | utils.py:263 | `lstrip` removes a prefix made only of whitespace, and what is left does not start with whitespace. |
| Strings.TrimEndSpec | utils.py:263 | `rstrip` removes a suffix made only of whitespace, and what is left does not end with whitespace. |
| Strings.StripSpec | utils.py:263 | `strip` keeps one contiguous piece, with only whitespace around it and none at its ends. |
| Strings.StripLowerCommute | utils.py:263 | Lower-casing and stripping can be done in either order. |
| Strings.StripAround | utils.py:263 | Stripping a word with whitespace around it gives back the word. |
| TaskUtils.Decide | utils.py:263-277 | The answer lower-cased then stripped, compared with "yes" and "no"; `DecideEitherOrder`, `DecideIgnoresCase`, `DecideIgnoresSpace` and `DecideSpacedYes` state its properties. |
| TaskUtils.DecideEitherOrder | utils.py:263-275 | The answer is a yes or a no exactly when, stripped and then lower-cased, it equals "yes" or "no": the order of the two steps does not matter. |
| Strings.LowerIdempotent | utils.py:263 | Lower-casing twice is the same as lower-casing once. |
| TaskUtils.DecideIgnoresCase | utils.py:263 | Lower-casing an answer first does not change the decision. |
| TaskUtils.DecideIgnoresSpace | utils.py:263 | Whitespace around an answer does not change the decision. |
| TaskUtils.DecideSpacedYes | utils.py:263-265 | " YES" followed by a newline counts as a yes. |
| TaskUtils.FirstDecisive | utils.py:262-277 | The position of the first yes-or-no answer: every earlier answer was neither. |
| TaskUtils.DeleteTaskOutcome | utils.py:252-277 | What `delete_task` returns, how many answers it reads and the table it leaves; `DeletedOnlyAfterYes`, `UndeletedKeepsTable`, `DeletePromptsUntilDecisive` and `DeletedTaskIsGone` state its properties, and `DeleteTask` is proved to follow it. |
| TaskUtils.DeletedOnlyAfterYes | utils.py:262-272 | A task is deleted only when the first yes-or-no answer is a yes, and then exactly the rows with its id go. |
| TaskUtils.UndeletedKeepsTable | utils.py:254-277 | An unknown id, a no or a store failure leaves the table unchanged. |
| TaskUtils.DeletePromptsUntilDecisive | utils.py:262-277 | The question repeats until the first yes or no; a no cancels; a yes deletes unless the store fails. |
| TaskUtils.DeletedTaskIsGone | utils.py:262-269 | After a confirmed deletion (with ids of one length) the deleted id is no longer found. |
| TaskUtils.DeleteTask | utils.py:238-277 | The answers read, the result and the table left behind are those of `DeleteTaskOutcome`. |
| TaskUtils.MarkCompleted | utils.py:210-236 | An unknown id or a store failure gives None and an unchanged table; otherwise the task is the found row with status Completed, and the rows with its id take that status. |

## Left out

- The MySQL connection and its configuration (db.py). The table is the `Store` class's sequence of rows.
- The interactive menu of main.py and every `print`, `display`, `__str__` and `__repr__`, including the listing's header, padding and footer. Only the truncation rule of the listing is modelled.
- The title and description prompts of `add_task` and the five-way menu of `update_task`. They pass their answers straight to `Task(...)`, `update_details` or `update_status`, which are modelled.
- `uuid4()` and the clock: id and created_at are parameters. The timestamp is taken once, when the module is imported, so one run gives every task the same created_at.
- `Lookup`: SQL `LIKE` treats `%` and `_` in the typed text as wildcards and `\` as an escape (a typed `abc\` escapes the appended `%`, so it matches only the id `abc%`), and the default collation ignores case. The model matches a plain, case-sensitive prefix. The cursor is unbuffered, so when a prefix matches several rows, `fetchone()` leaves rows unread, and the next statement on the connection can be refused. The error flags of the later operations cover that outcome.
- `Store.ExecuteInsert`, `Lookup`, `GetAll`: the store does not specify the order of rows returned without `ORDER BY`, nor which of several `LIKE` matches `fetchone()` gives first; the source only calls it the default database order, and with a primary key on `id` the store would return rows by id. The model takes save order: inserting appends. So in the model an ambiguous prefix finds the earliest-saved match, and the unsorted listing is in save order.
- `PriorityRank`, `StatusRank`, `UpdateWhere`, `DeleteWhere`: the rank maps and the `WHERE id = ...` matches compare strings exactly in the model. The store compares them under the column's collation, which by default ignores case, so a value such as "high" written by other means would rank 1 there and 4 here. The program itself only stores the exact words the priority and status menus produce.
- `GetAll`: ties within one rank or one due date may come back in any order. The model fixes one such order and proves nothing about stability. Due dates compare by code point, not by the column's collation or type.
- `Task.UpdateDetails`: store failures are not modelled. The source assigns each field before its statement runs and commits once at the end. After a failure, the object is partly updated and the uncommitted statements stay pending on the shared connection. The model always succeeds.
- Transactions and commits: every statement that succeeds is final.
- `ParseInt`: Python's `int()` also accepts surrounding whitespace and `_` between digits. The model accepts an optional sign followed by ASCII digits. An answer such as " 5" is therefore refused by `AcceptDay` and `AcceptYear`, while the source would accept it and store it with the space. Python's `int()` also accepts non-ASCII decimal digits, and refuses literals longer than 4300 digits; the model accepts only ASCII digits, and accepts literals of any length.
- `Lower`, `Strip`: only ASCII letters are case-folded and only ASCII whitespace is stripped. Python also folds and strips other Unicode characters.
- `DeleteTask`, `MarkCompleted`: both start after the task id has been typed. They leave out the listing that comes first (`list_tasks`, which reads a sort choice and queries the table) and the id prompt itself.
- Input that ends before an acceptable answer: the prompt methods require such an answer to exist. In the source, the end of input raises an exception that ends the program.
