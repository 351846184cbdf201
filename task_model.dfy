/**
 * The task record and its store (models/task.py).
 *
 * The `tasks` table is an in-memory `Store` holding its rows in store order;
 * each SQL statement the source issues is one `Store` method. A store failure
 * is the `storeError` flag: it stands for the exception the source catches,
 * logs and turns into `False`, `None` or `[]`.
 */
module TaskModel {
  import opened Wrappers
  import opened Strings

  // ---------------------------------------------------------------------
  // Rows and the statements that change them
  // ---------------------------------------------------------------------

  /** One row of the `tasks` table, its seven columns in table order. */
  datatype Row = Row(
    id: string,
    title: string,
    description: string,
    dueDate: string,
    priorityLevel: string,
    status: string,
    createdAt: string)

  /** The columns an `UPDATE` statement of the source may set. */
  datatype Column = Title | Description | DueDate | PriorityLevel | Status

  function SetColumn(r: Row, c: Column, v: string): Row {
    match c
    case Title => r.(title := v)
    case Description => r.(description := v)
    case DueDate => r.(dueDate := v)
    case PriorityLevel => r.(priorityLevel := v)
    case Status => r.(status := v)
  }

  /** `UPDATE tasks SET c = v WHERE id = key`. */
  function UpdateWhere(rows: seq<Row>, key: string, c: Column, v: string): (rows': seq<Row>)
    ensures |rows'| == |rows|
    ensures forall i :: 0 <= i < |rows| && rows[i].id != key ==> rows'[i] == rows[i]
    ensures forall i :: 0 <= i < |rows| && rows[i].id == key ==>
      rows'[i] == SetColumn(rows[i], c, v) && rows'[i].id == key && rows'[i].createdAt == rows[i].createdAt
  {
    seq(|rows|, i requires 0 <= i < |rows| => if rows[i].id == key then SetColumn(rows[i], c, v) else rows[i])
  }

  /** `UPDATE tasks SET c = v WHERE id = key`, skipped when no value is supplied. */
  function UpdateIfGiven(rows: seq<Row>, key: string, c: Column, v: Option<string>): seq<Row> {
    if v.Some? then UpdateWhere(rows, key, c, v.value) else rows
  }

  /**
   * The table after `update_details` with the supplied values: in every row
   * whose id is `key`, each supplied value replaces its column (the priority
   * goes to `priority_level`); id, status, created_at and every other row are
   * left as they were.
   */
  function DetailsUpdated(rows: seq<Row>, key: string,
                          title: Option<string>, description: Option<string>,
                          dueDate: Option<string>, priority: Option<string>): (rows': seq<Row>)
    ensures |rows'| == |rows|
    ensures forall i :: 0 <= i < |rows| && rows[i].id != key ==> rows'[i] == rows[i]
    ensures forall i :: 0 <= i < |rows| && rows[i].id == key ==>
      rows'[i] == Row(key, title.GetOr(rows[i].title), description.GetOr(rows[i].description),
                      dueDate.GetOr(rows[i].dueDate), priority.GetOr(rows[i].priorityLevel),
                      rows[i].status, rows[i].createdAt)
  {
    var r1 := UpdateIfGiven(rows, key, Title, title);
    var r2 := UpdateIfGiven(r1, key, Description, description);
    var r3 := UpdateIfGiven(r2, key, DueDate, dueDate);
    UpdateIfGiven(r3, key, PriorityLevel, priority)
  }

  /** `DELETE FROM tasks WHERE id = key`. */
  function DeleteWhere(rows: seq<Row>, key: string): (rows': seq<Row>)
    ensures forall r :: r in rows' ==> r in rows && r.id != key
    ensures forall i :: 0 <= i < |rows| && rows[i].id != key ==> rows[i] in rows'
  {
    if rows == [] then []
    else if rows[0].id == key then DeleteWhere(rows[1..], key)
    else [rows[0]] + DeleteWhere(rows[1..], key)
  }

  /** Deleting drops exactly the copies of rows with id `key`. */
  lemma {:induction false} DeleteWhereCounts(rows: seq<Row>, key: string, r: Row)
    ensures multiset(DeleteWhere(rows, key))[r] == if r.id == key then 0 else multiset(rows)[r]
  {
    if rows != [] {
      DeleteWhereCounts(rows[1..], key, r);
      assert rows == [rows[0]] + rows[1..];
    }
  }

  /** Deleting works piecewise, so the kept rows stay in their original order. */
  lemma {:induction false} DeleteWhereAppend(a: seq<Row>, b: seq<Row>, key: string)
    ensures DeleteWhere(a + b, key) == DeleteWhere(a, key) + DeleteWhere(b, key)
  {
    if a == [] {
      assert a + b == b;
    } else {
      assert (a + b)[1..] == a[1..] + b;
      DeleteWhereAppend(a[1..], b, key);
    }
  }

  /** A table without the key is left exactly as it was. */
  lemma {:induction false} DeleteWhereAbsent(rows: seq<Row>, key: string)
    requires forall i :: 0 <= i < |rows| ==> rows[i].id != key
    ensures DeleteWhere(rows, key) == rows
  {
    if rows != [] {
      DeleteWhereAbsent(rows[1..], key);
      assert rows == [rows[0]] + rows[1..];
    }
  }

  // ---------------------------------------------------------------------
  // Lookup by id prefix (`Task.get`)
  // ---------------------------------------------------------------------

  /** No row of `rows` has an id that starts with `prefix`. */
  predicate NoneStartsWith(rows: seq<Row>, prefix: string) {
    forall i :: 0 <= i < |rows| ==> !(prefix <= rows[i].id)
  }

  /** The position of the first row, in store order, whose id starts with `prefix`; `|rows|` if none does. */
  function FirstWithPrefix(rows: seq<Row>, prefix: string): (k: nat)
    ensures k <= |rows|
    ensures forall j :: 0 <= j < k ==> !(prefix <= rows[j].id)
    ensures k < |rows| ==> prefix <= rows[k].id
  {
    if rows == [] || prefix <= rows[0].id then 0
    else 1 + FirstWithPrefix(rows[1..], prefix)
  }

  /**
   * `Task.get(prefix)`: the seven fields of the first row whose id starts
   * with `prefix`, or `None` when there is none or the store fails.
   */
  function Lookup(rows: seq<Row>, prefix: string, storeError: bool): (found: Option<Row>)
    ensures storeError ==> found.None?
    ensures !storeError ==> (found.None? <==> NoneStartsWith(rows, prefix))
    ensures found.Some? ==> found.value in rows && prefix <= found.value.id
  {
    if storeError then None
    else
      var k := FirstWithPrefix(rows, prefix);
      if k < |rows| then Some(rows[k]) else None
  }

  /** A row's id found by an unambiguous prefix gives back that very row. */
  lemma {:induction false} LookupUniquePrefix(rows: seq<Row>, k: nat, prefix: string)
    requires k < |rows| && prefix <= rows[k].id
    requires forall i :: 0 <= i < |rows| && i != k ==> !(prefix <= rows[i].id)
    ensures Lookup(rows, prefix, false) == Some(rows[k])
  {
    if k > 0 {
      LookupUniquePrefix(rows[1..], k - 1, prefix);
    }
  }

  /** A saved row is found again by its full id when no other id extends it. */
  lemma SaveThenLookup(rows: seq<Row>, row: Row)
    requires NoneStartsWith(rows, row.id)
    ensures Lookup(rows + [row], row.id, false) == Some(row)
  {
    LookupUniquePrefix(rows + [row], |rows|, row.id);
  }

  /** After deleting `key`, looking up `key` finds nothing unless a longer id begins with it. */
  lemma DeleteThenLookup(rows: seq<Row>, key: string)
    ensures Lookup(DeleteWhere(rows, key), key, false).Some? ==>
      |Lookup(DeleteWhere(rows, key), key, false).value.id| > |key|
  {
  }

  /** With ids of one length (as UUIDs are), a deleted id is no longer found. */
  lemma DeleteThenLookupFixedLength(rows: seq<Row>, key: string)
    requires forall i :: 0 <= i < |rows| ==> |rows[i].id| == |key|
    ensures Lookup(DeleteWhere(rows, key), key, false) == None
  {
    DeleteThenLookup(rows, key);
  }

  // ---------------------------------------------------------------------
  // Listing (`Task.get_all`)
  // ---------------------------------------------------------------------

  /** The `ORDER BY` clause a `sort_by` value selects. */
  datatype Order = StoreOrder | DueDateAscending | PriorityRanked | StatusRanked

  function OrderFor(sortBy: Option<string>): (o: Order)
    ensures o == StoreOrder <==> sortBy !in {Some("due_date"), Some("priority"), Some("status")}
  {
    if sortBy == Some("due_date") then DueDateAscending
    else if sortBy == Some("priority") then PriorityRanked
    else if sortBy == Some("status") then StatusRanked
    else StoreOrder
  }

  /** `CASE priority_level WHEN 'High' THEN 1 WHEN 'Medium' THEN 2 WHEN 'Low' THEN 3 ELSE 4 END`. */
  function PriorityRank(p: string): (rank: nat)
    ensures 1 <= rank <= 4
    ensures rank == 4 <==> p !in {"High", "Medium", "Low"}
  {
    if p == "High" then 1 else if p == "Medium" then 2 else if p == "Low" then 3 else 4
  }

  /** `CASE status WHEN 'Pending' THEN 1 WHEN 'In Progress' THEN 2 WHEN 'Completed' THEN 3 ELSE 4 END`. */
  function StatusRank(s: string): (rank: nat)
    ensures 1 <= rank <= 4
    ensures rank == 4 <==> s !in {"Pending", "In Progress", "Completed"}
  {
    if s == "Pending" then 1 else if s == "In Progress" then 2 else if s == "Completed" then 3 else 4
  }

  /** Row `a` may come before row `b` under order `o`. */
  predicate Precedes(o: Order, a: Row, b: Row) {
    match o
    case StoreOrder => true
    case DueDateAscending => LexLe(a.dueDate, b.dueDate)
    case PriorityRanked => PriorityRank(a.priorityLevel) <= PriorityRank(b.priorityLevel)
    case StatusRanked => StatusRank(a.status) <= StatusRank(b.status)
  }

  lemma PrecedesTotal(o: Order, a: Row, b: Row)
    ensures Precedes(o, a, b) || Precedes(o, b, a)
  {
    if o == DueDateAscending {
      LexLeTotal(a.dueDate, b.dueDate);
    }
  }

  lemma PrecedesTransitive(o: Order, a: Row, b: Row, c: Row)
    requires Precedes(o, a, b) && Precedes(o, b, c)
    ensures Precedes(o, a, c)
  {
    if o == DueDateAscending {
      LexLeTransitive(a.dueDate, b.dueDate, c.dueDate);
    }
  }

  predicate SortedBy(o: Order, s: seq<Row>) {
    forall i, j :: 0 <= i < j < |s| ==> Precedes(o, s[i], s[j])
  }

  function Insert(o: Order, x: Row, s: seq<Row>): (r: seq<Row>)
    requires SortedBy(o, s)
    ensures multiset(r) == multiset(s) + multiset{x}
    ensures SortedBy(o, r)
  {
    if s == [] then [x]
    else if Precedes(o, x, s[0]) then
      forall j | 0 <= j < |s| ensures Precedes(o, x, s[j]) {
        if j > 0 { PrecedesTransitive(o, x, s[0], s[j]); }
      }
      [x] + s
    else
      PrecedesTotal(o, x, s[0]);
      var rest := Insert(o, x, s[1..]);
      assert s == [s[0]] + s[1..];
      forall j | 0 <= j < |rest| ensures Precedes(o, s[0], rest[j]) {
        assert rest[j] in multiset(rest);
      }
      [s[0]] + rest
  }

  /** One of the orders the store may return for `o`; ties are not constrained. */
  function Sort(o: Order, s: seq<Row>): (r: seq<Row>)
    ensures multiset(r) == multiset(s)
    ensures SortedBy(o, r)
  {
    if s == [] then []
    else
      assert s == [s[0]] + s[1..];
      Insert(o, s[0], Sort(o, s[1..]))
  }

  /**
   * `Task.get_all(sort_by)`: every row once, as one Task each, ordered as
   * `sort_by` selects; the empty list when the store fails.
   */
  function GetAll(rows: seq<Row>, sortBy: Option<string>, storeError: bool): (tasks: seq<Row>)
    ensures storeError ==> tasks == []
    ensures !storeError ==> multiset(tasks) == multiset(rows) && |tasks| == |rows|
    ensures !storeError ==> SortedBy(OrderFor(sortBy), tasks)
    ensures !storeError && OrderFor(sortBy) == StoreOrder ==> tasks == rows
  {
    if storeError then []
    else
      var o := OrderFor(sortBy);
      if o == StoreOrder then rows
      else
        var r := Sort(o, rows);
        assert |r| == |multiset(r)| == |multiset(rows)| == |rows|;
        r
  }

  /**
   * Listing by priority: every High before every Medium, every Medium before
   * every Low, every Low before any other value.
   */
  lemma PriorityListing(rows: seq<Row>)
    ensures var tasks := GetAll(rows, Some("priority"), false);
      forall i, j :: 0 <= i < |tasks| && 0 <= j < |tasks| ==>
        (PriorityRank(tasks[i].priorityLevel) < PriorityRank(tasks[j].priorityLevel) ==> i < j)
  {
  }

  /** Listing by status: Pending, then In Progress, then Completed, then any other value. */
  lemma StatusListing(rows: seq<Row>)
    ensures var tasks := GetAll(rows, Some("status"), false);
      forall i, j :: 0 <= i < |tasks| && 0 <= j < |tasks| ==>
        (StatusRank(tasks[i].status) < StatusRank(tasks[j].status) ==> i < j)
  {
  }

  /** Listing by due date: ascending in the string order of the column. */
  lemma DueDateListing(rows: seq<Row>)
    ensures var tasks := GetAll(rows, Some("due_date"), false);
      forall i, j :: 0 <= i < j < |tasks| ==> LexLe(tasks[i].dueDate, tasks[j].dueDate)
  {
    var tasks := GetAll(rows, Some("due_date"), false);
    assert SortedBy(DueDateAscending, tasks);
  }

  /**
   * Of two saved tasks, the one with the better-ranked priority is listed
   * first whatever the store order: a Low task saved before a High one, or an
   * unchecked value such as "Urgent" (rank 4) saved before a Low one.
   */
  lemma PriorityScenario(a: Row, b: Row)
    requires PriorityRank(b.priorityLevel) < PriorityRank(a.priorityLevel)
    ensures GetAll([a, b], Some("priority"), false) == [b, a]
  {
    assert [a, b][1..] == [b];
    assert Sort(PriorityRanked, [b]) == [b] by {
      assert [b][1..] == [];
    }
  }

  // ---------------------------------------------------------------------
  // The store and the task object
  // ---------------------------------------------------------------------

  /** The `tasks` table behind the shared connection. */
  class Store {
    var rows: seq<Row>

    constructor ()
      ensures rows == []
    {
      rows := [];
    }

    /** `INSERT INTO tasks VALUES(...)` followed by `commit()`. */
    method ExecuteInsert(row: Row)
      modifies this
      ensures rows == old(rows) + [row]
    {
      rows := rows + [row];
    }

    /** `UPDATE tasks SET c = v WHERE id = key`. */
    method ExecuteUpdate(c: Column, v: string, key: string)
      modifies this
      ensures rows == UpdateWhere(old(rows), key, c, v)
    {
      rows := UpdateWhere(rows, key, c, v);
    }

    /** `DELETE FROM tasks WHERE id = key`. */
    method ExecuteDelete(key: string)
      modifies this
      ensures rows == DeleteWhere(old(rows), key)
    {
      rows := DeleteWhere(rows, key);
    }
  }

  /**
   * A task. Construction only assigns: no field is checked, so a priority or
   * status outside the usual three values reaches the store unchanged.
   */
  class Task {
    var id: string
    var title: string
    var description: string
    var dueDate: string
    var priority: string
    var status: string
    var createdAt: string

    constructor (id: string, title: string, description: string, dueDate: string,
                 priority: string, status: string, createdAt: string)
      ensures Fields() == Row(id, title, description, dueDate, priority, status, createdAt)
    {
      this.id := id;
      this.title := title;
      this.description := description;
      this.dueDate := dueDate;
      this.priority := priority;
      this.status := status;
      this.createdAt := createdAt;
    }

    /** The row this task is stored as, `priority` in the `priority_level` column. */
    function Fields(): Row
      reads this
    {
      Row(id, title, description, dueDate, priority, status, createdAt)
    }

    /** Every row of `rows` with this task's id holds exactly this task's fields. */
    predicate InSync(rows: seq<Row>)
      reads this
    {
      forall i :: 0 <= i < |rows| && rows[i].id == id ==> rows[i] == Fields()
    }

    /** `Task.get(prefix)`: the task built from the first matching row, or null. */
    static method Get(store: Store, prefix: string, storeError: bool) returns (task: Task?)
      ensures task == null <==> Lookup(store.rows, prefix, storeError).None?
      ensures task != null ==> fresh(task) && task.Fields() == Lookup(store.rows, prefix, storeError).value
    {
      var found := Lookup(store.rows, prefix, storeError);
      if found.None? {
        return null;
      }
      var r := found.value;
      task := new Task(r.id, r.title, r.description, r.dueDate, r.priorityLevel, r.status, r.createdAt);
    }

    /** `save()`: appends this task as one row; `False` when the store fails. */
    method Save(store: Store, storeError: bool) returns (ok: bool)
      modifies store
      ensures ok == !storeError
      ensures store.rows == if ok then old(store.rows) + [Fields()] else old(store.rows)
      ensures ok && NoneStartsWith(old(store.rows), id) ==> Lookup(store.rows, id, false) == Some(Fields())
    {
      if storeError {
        return false;
      }
      store.ExecuteInsert(Fields());
      ok := true;
      if NoneStartsWith(old(store.rows), id) {
        SaveThenLookup(old(store.rows), Fields());
      }
    }

    /**
     * `update_details(...)`: each supplied value is written to this object and
     * to the rows with this id; nothing else changes.
     */
    method UpdateDetails(store: Store, title: Option<string>, description: Option<string>,
                         dueDate: Option<string>, priority: Option<string>) returns (ok: bool)
      modifies this, store
      ensures ok
      ensures id == old(id) && status == old(status) && createdAt == old(createdAt)
      ensures this.title == title.GetOr(old(this.title))
      ensures this.description == description.GetOr(old(this.description))
      ensures this.dueDate == dueDate.GetOr(old(this.dueDate))
      ensures this.priority == priority.GetOr(old(this.priority))
      ensures store.rows == DetailsUpdated(old(store.rows), id, title, description, dueDate, priority)
      ensures old(InSync(store.rows)) ==> InSync(store.rows)
    {
      if title.Some? {
        this.title := title.value;
        store.ExecuteUpdate(Title, title.value, id);
      }
      if description.Some? {
        this.description := description.value;
        store.ExecuteUpdate(Description, description.value, id);
      }
      if dueDate.Some? {
        this.dueDate := dueDate.value;
        store.ExecuteUpdate(DueDate, dueDate.value, id);
      }
      if priority.Some? {
        this.priority := priority.value;
        store.ExecuteUpdate(PriorityLevel, priority.value, id);
      }
      ok := true;
    }

    /**
     * `update_status(s)`: the object takes the new status before the
     * statement runs, so it does so even when the store fails; the rows with
     * this id take it only when the store succeeds.
     */
    method UpdateStatus(store: Store, status: string, storeError: bool) returns (ok: bool)
      modifies this, store
      ensures ok == !storeError
      ensures this.status == status
      ensures Fields() == old(Fields()).(status := status)
      ensures store.rows == if ok then UpdateWhere(old(store.rows), id, Status, status) else old(store.rows)
      ensures ok && old(InSync(store.rows)) ==> InSync(store.rows)
    {
      this.status := status;
      if storeError {
        return false;
      }
      store.ExecuteUpdate(Status, status, id);
      ok := true;
    }

    /** `delete()`: removes every row with this id; the others keep their order. */
    method Delete(store: Store, storeError: bool) returns (ok: bool)
      modifies store
      ensures ok == !storeError
      ensures store.rows == if ok then DeleteWhere(old(store.rows), id) else old(store.rows)
    {
      if storeError {
        return false;
      }
      store.ExecuteDelete(id);
      ok := true;
    }
  }
}
