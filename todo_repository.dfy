/** The repository: the only code that reads and writes the `todos` table.
    The table is modelled as the sequence of its rows; ids are unique (the
    primary key), and the storage engine assigns a fresh id and the creation
    timestamp on insert. */
module Repository {
  import opened Wrappers
  import opened JsBuiltins
  import opened TodoTypes

  /** A stored row: `completed` is an integer column, `createdAt` the
      `created_at` text column. */
  datatype DbTodoRow = DbTodoRow(id: int, text: string, completed: int, createdAt: string)

  /** The failure the table reports for an empty or all-whitespace text. */
  const EmptyTextError := "Text cannot be empty"

  /** `mapTodoRow`: a stored row as the domain entity. */
  function MapTodoRow(row: DbTodoRow): Todo {
    Todo(row.id, row.text, row.completed == 1, row.createdAt)
  }

  /** The integer the update statement stores for a completion flag. */
  function StoredFlag(completed: bool): int {
    if completed then 1 else 0
  }

  /** Storing a flag and mapping the row back gives the flag, and mapping
      keeps the id, the text and the timestamp. */
  lemma MapTodoRowReadsBack(row: DbTodoRow, completed: bool)
    ensures var t := MapTodoRow(row.(completed := StoredFlag(completed)));
      t.id == row.id && t.text == row.text && t.createdAt == row.createdAt && t.completed == completed
  {
  }

  function MapRows(rows: seq<DbTodoRow>): (ts: seq<Todo>)
    ensures |ts| == |rows|
    ensures forall i :: 0 <= i < |rows| ==> ts[i] == MapTodoRow(rows[i])
  {
    seq(|rows|, i requires 0 <= i < |rows| => MapTodoRow(rows[i]))
  }

  function Ids(rows: seq<DbTodoRow>): set<int> {
    set i | 0 <= i < |rows| :: rows[i].id
  }

  lemma IdsConcat(a: seq<DbTodoRow>, b: seq<DbTodoRow>)
    ensures Ids(a + b) == Ids(a) + Ids(b)
  {
    forall x | x in Ids(a + b) ensures x in Ids(a) + Ids(b) {
      var i :| 0 <= i < |a + b| && (a + b)[i].id == x;
      if i >= |a| {
        assert b[i - |a|].id == x;
      }
    }
    forall x | x in Ids(a) ensures x in Ids(a + b) {
      var i :| 0 <= i < |a| && a[i].id == x;
      assert (a + b)[i].id == x;
    }
    forall x | x in Ids(b) ensures x in Ids(a + b) {
      var i :| 0 <= i < |b| && b[i].id == x;
      assert (a + b)[i + |a|].id == x;
    }
  }

  /** The primary-key constraint. */
  predicate DistinctIds(rows: seq<DbTodoRow>) {
    forall i, j :: 0 <= i < j < |rows| ==> rows[i].id != rows[j].id
  }

  /** The largest id in the table, 0 for an empty table. */
  function MaxId(rows: seq<DbTodoRow>): (m: int)
    ensures m >= 0
    ensures forall i :: 0 <= i < |rows| ==> rows[i].id <= m
  {
    if rows == [] then 0
    else
      var rest := MaxId(rows[1..]);
      if rows[0].id > rest then rows[0].id else rest
  }

  /** `SELECT ... WHERE id = ?`: the row with that id, if any. */
  function FindRow(rows: seq<DbTodoRow>, id: int): (r: Option<DbTodoRow>)
    ensures r.None? <==> id !in Ids(rows)
    ensures r.Some? ==> r.value in rows && r.value.id == id
  {
    if rows == [] then None
    else if rows[0].id == id then Some(rows[0])
    else
      assert Ids(rows) == {rows[0].id} + Ids(rows[1..]);
      FindRow(rows[1..], id)
  }

  /** `UPDATE todos SET completed = ? WHERE id = ?`. */
  function UpdateRows(rows: seq<DbTodoRow>, id: int, completed: bool): (r: seq<DbTodoRow>)
    ensures |r| == |rows|
    ensures forall i :: 0 <= i < |rows| ==>
      r[i] == if rows[i].id == id then rows[i].(completed := StoredFlag(completed)) else rows[i]
  {
    seq(|rows|, i requires 0 <= i < |rows| =>
      if rows[i].id == id then rows[i].(completed := StoredFlag(completed)) else rows[i])
  }

  /** The todo an update of `id` to `completed` reads back: the row with
      that id, carrying the new flag; None when no row has the id. */
  function UpdatedTodo(rows: seq<DbTodoRow>, id: int, completed: bool): (r: Option<Todo>)
    ensures r.None? <==> id !in Ids(rows)
  {
    match FindRow(rows, id)
    case None => None
    case Some(row) => Some(MapTodoRow(row.(completed := StoredFlag(completed))))
  }

  /** After the update the row found by the id is the old row with the new
      flag, and a missing id stays missing. */
  lemma {:induction false} FindRowAfterUpdate(rows: seq<DbTodoRow>, id: int, completed: bool)
    ensures FindRow(UpdateRows(rows, id, completed), id) ==
      match FindRow(rows, id)
      case None => None
      case Some(row) => Some(row.(completed := StoredFlag(completed)))
  {
    if rows != [] {
      var u := UpdateRows(rows, id, completed);
      assert u[1..] == UpdateRows(rows[1..], id, completed);
      FindRowAfterUpdate(rows[1..], id, completed);
    }
  }

  /** An update changes the flag of the rows with the id and nothing else;
      it reads back the todo with the old id, text and timestamp. */
  lemma UpdatedTodoFields(rows: seq<DbTodoRow>, id: int, completed: bool)
    requires id in Ids(rows)
    ensures var t := UpdatedTodo(rows, id, completed).value;
      t.id == id && t.completed == completed &&
      exists row :: row in rows && row.id == id && t.text == row.text && t.createdAt == row.createdAt
  {
    var row := FindRow(rows, id).value;
    MapTodoRowReadsBack(row, completed);
  }

  /** `DELETE FROM todos WHERE id = ?`. */
  function DeleteRows(rows: seq<DbTodoRow>, id: int): (r: seq<DbTodoRow>)
    ensures |r| <= |rows|
    ensures forall i :: 0 <= i < |r| ==> r[i].id != id
  {
    if rows == [] then []
    else if rows[0].id == id then DeleteRows(rows[1..], id)
    else [rows[0]] + DeleteRows(rows[1..], id)
  }

  lemma IdsCons(r: DbTodoRow, rest: seq<DbTodoRow>)
    ensures Ids([r] + rest) == {r.id} + Ids(rest)
  {
    IdsConcat([r], rest);
    assert [r][0].id == r.id;
  }

  /** Under the primary-key constraint the first row's id occurs nowhere else. */
  lemma DistinctHead(rows: seq<DbTodoRow>)
    requires rows != [] && DistinctIds(rows)
    ensures rows[0].id !in Ids(rows[1..])
  {
    forall i | 0 <= i < |rows[1..]| ensures rows[1..][i].id != rows[0].id {
      assert rows[1..][i] == rows[i + 1];
    }
  }

  /** A row survives the delete exactly when its id differs. */
  lemma {:induction false} DeleteRowsMembers(rows: seq<DbTodoRow>, id: int)
    ensures forall row :: row in DeleteRows(rows, id) <==> row in rows && row.id != id
  {
    if rows != [] {
      DeleteRowsMembers(rows[1..], id);
      assert rows == [rows[0]] + rows[1..];
    }
  }

  /** The delete removes exactly the id from the set of ids. */
  lemma {:induction false} DeleteRowsIds(rows: seq<DbTodoRow>, id: int)
    ensures Ids(DeleteRows(rows, id)) == Ids(rows) - {id}
  {
    if rows != [] {
      DeleteRowsIds(rows[1..], id);
      assert rows == [rows[0]] + rows[1..];
      IdsCons(rows[0], rows[1..]);
      if rows[0].id != id {
        IdsCons(rows[0], DeleteRows(rows[1..], id));
      }
    }
  }

  /** Without a row carrying the id the delete changes nothing. */
  lemma {:induction false} DeleteRowsAbsent(rows: seq<DbTodoRow>, id: int)
    requires id !in Ids(rows)
    ensures DeleteRows(rows, id) == rows
  {
    if rows != [] {
      assert rows == [rows[0]] + rows[1..];
      IdsCons(rows[0], rows[1..]);
      DeleteRowsAbsent(rows[1..], id);
    }
  }

  /** The delete keeps the primary-key constraint and, when the id was
      present, removes exactly one row. */
  lemma {:induction false} DeleteRowsDistinct(rows: seq<DbTodoRow>, id: int)
    requires DistinctIds(rows)
    ensures DistinctIds(DeleteRows(rows, id))
    ensures id in Ids(rows) ==> |DeleteRows(rows, id)| == |rows| - 1
  {
    if rows != [] {
      var rest := rows[1..];
      assert rows == [rows[0]] + rest;
      IdsCons(rows[0], rest);
      DeleteRowsDistinct(rest, id);
      var d := DeleteRows(rest, id);
      if rows[0].id != id {
        DeleteRowsMembers(rest, id);
        DistinctHead(rows);
        forall i, j | 0 <= i < j < |[rows[0]] + d|
          ensures ([rows[0]] + d)[i].id != ([rows[0]] + d)[j].id
        {
          if i == 0 {
            var x := ([rows[0]] + d)[j];
            assert x in d;
            assert x in rest;
            var k :| 0 <= k < |rest| && rest[k] == x;
            assert x.id in Ids(rest);
          }
        }
      } else {
        DistinctHead(rows);
        DeleteRowsAbsent(rest, id);
      }
    }
  }

  /** Deleting an id twice: the second delete finds nothing. */
  lemma DeleteTwice(rows: seq<DbTodoRow>, id: int)
    ensures id !in Ids(DeleteRows(rows, id))
    ensures DeleteRows(DeleteRows(rows, id), id) == DeleteRows(rows, id)
  {
    DeleteRowsIds(rows, id);
    DeleteRowsAbsent(DeleteRows(rows, id), id);
  }

  // ORDER BY created_at DESC compares the text column with the binary
  // collation: byte order of UTF-8, which is code-point order.

  /** `a` sorts at or before `b` in lexicographic code-point order. */
  predicate TextLe(a: string, b: string) {
    a == [] || (b != [] && (a[0] < b[0] || (a[0] == b[0] && TextLe(a[1..], b[1..]))))
  }

  lemma {:induction false} TextLeTotal(a: string, b: string)
    ensures TextLe(a, b) || TextLe(b, a)
  {
    if a != [] && b != [] && a[0] == b[0] {
      TextLeTotal(a[1..], b[1..]);
    }
  }

  lemma {:induction false} TextLeTransitive(a: string, b: string, c: string)
    requires TextLe(a, b) && TextLe(b, c)
    ensures TextLe(a, c)
  {
    if a != [] && b != [] && c != [] && a[0] == b[0] && b[0] == c[0] {
      TextLeTransitive(a[1..], b[1..], c[1..]);
    }
  }

  /** Newest first: along the sequence `createdAt` never increases. */
  predicate SortedByCreatedDesc(ts: seq<Todo>) {
    forall i, j :: 0 <= i < j < |ts| ==> TextLe(ts[j].createdAt, ts[i].createdAt)
  }

  /** A todo not older than the head of a newest-first list can go in front. */
  lemma InsertFrontSorted(t: Todo, ts: seq<Todo>)
    requires SortedByCreatedDesc(ts)
    requires ts != [] ==> TextLe(ts[0].createdAt, t.createdAt)
    ensures SortedByCreatedDesc([t] + ts)
  {
    forall i, j | 0 <= i < j < |[t] + ts|
      ensures TextLe(([t] + ts)[j].createdAt, ([t] + ts)[i].createdAt)
    {
      if i == 0 && j > 1 {
        TextLeTransitive(ts[j - 1].createdAt, ts[0].createdAt, t.createdAt);
      }
    }
  }

  /** The head of a newest-first list stays in front of the list that
      inserting an older todo into its tail gives. */
  lemma InsertBehindSorted(h: Todo, tail: seq<Todo>, t: Todo, rest: seq<Todo>)
    requires SortedByCreatedDesc([h] + tail) && SortedByCreatedDesc(rest)
    requires TextLe(t.createdAt, h.createdAt)
    requires multiset(rest) == multiset(tail) + multiset{t}
    ensures SortedByCreatedDesc([h] + rest)
  {
    forall i, j | 0 <= i < j < |[h] + rest|
      ensures TextLe(([h] + rest)[j].createdAt, ([h] + rest)[i].createdAt)
    {
      var x := rest[j - 1];
      assert ([h] + rest)[j] == x;
      if i == 0 {
        assert x in multiset(rest);
        if x != t {
          assert x in multiset(tail);
          var k :| 0 <= k < |tail| && tail[k] == x;
          assert ([h] + tail)[k + 1] == x && ([h] + tail)[0] == h;
        }
        assert TextLe(x.createdAt, h.createdAt);
        assert ([h] + rest)[0] == h;
      } else {
        assert ([h] + rest)[i] == rest[i - 1];
      }
    }
  }

  /** Inserts `t` into a list sorted newest first, before the first entry
      that is not newer. */
  function InsertByCreatedDesc(t: Todo, ts: seq<Todo>): (r: seq<Todo>)
    requires SortedByCreatedDesc(ts)
    ensures SortedByCreatedDesc(r)
    ensures multiset(r) == multiset(ts) + multiset{t}
  {
    if ts == [] then [t]
    else if TextLe(ts[0].createdAt, t.createdAt) then
      InsertFrontSorted(t, ts);
      [t] + ts
    else
      var rest := InsertByCreatedDesc(t, ts[1..]);
      assert ts == [ts[0]] + ts[1..];
      TextLeTotal(ts[0].createdAt, t.createdAt);
      InsertBehindSorted(ts[0], ts[1..], t, rest);
      [ts[0]] + rest
  }

  /** The rows in `ORDER BY created_at DESC` order: every entry exactly
      once, newest first; the order among equal timestamps is the engine's
      choice, and this is one such order. */
  function SortByCreatedDesc(ts: seq<Todo>): (r: seq<Todo>)
    ensures SortedByCreatedDesc(r)
    ensures multiset(r) == multiset(ts)
  {
    if ts == [] then []
    else
      assert ts == [ts[0]] + ts[1..];
      InsertByCreatedDesc(ts[0], SortByCreatedDesc(ts[1..]))
  }

  /** The repository object over the injected database handle. */
  class TodoRepository {
    /** The rows of the `todos` table, in insertion order. */
    var rows: seq<DbTodoRow>

    ghost predicate Valid()
      reads this
    {
      DistinctIds(rows)
    }

    /** The constructor runs the idempotent schema script: an existing table
        keeps its rows. */
    constructor (existing: seq<DbTodoRow>)
      requires DistinctIds(existing)
      ensures Valid() && rows == existing
    {
      rows := existing;
    }

    /** `create(text)`: inserts a row with `completed = 0`, a fresh id and
        the current timestamp `now` (the column default), and returns the
        row read back. The table refuses an empty or all-whitespace text. */
    method Create(text: string, now: string) returns (r: Result<Todo, string>)
      requires Valid()
      modifies this
      ensures Valid()
      ensures Blank(text) ==> r == Failure(EmptyTextError) && rows == old(rows)
      ensures !Blank(text) ==>
        && r.Success?
        && r.value.id >= 1 && r.value.id !in Ids(old(rows))
        && r.value == Todo(r.value.id, text, false, now)
        && rows == old(rows) + [DbTodoRow(r.value.id, text, 0, now)]
    {
      if Blank(text) {
        return Failure(EmptyTextError);
      }
      var id :| 1 <= id <= MaxId(rows) + 1 && id !in Ids(rows);
      var inserted := DbTodoRow(id, text, 0, now);
      IdsConcat(rows, [inserted]);
      assert [inserted][0].id == id;
      assert Ids([inserted]) == {id};
      rows := rows + [inserted];
      // the read-back by the new id always finds the inserted row
      match FindRow(rows, id)
      case Some(row) =>
        r := Success(MapTodoRow(row));
      case None =>
        assert false;
    }

    /** `getAll()`: every row exactly once, newest first. */
    method GetAll() returns (todos: seq<Todo>)
      ensures SortedByCreatedDesc(todos)
      ensures multiset(todos) == multiset(MapRows(rows))
    {
      todos := SortByCreatedDesc(MapRows(rows));
    }

    /** `update(id, completed)`: null when no row has the id, the table then
        unchanged; otherwise that row's flag is set and the row is returned,
        with its id, text and timestamp as before. */
    method Update(id: int, completed: bool) returns (r: Option<Todo>)
      requires Valid()
      modifies this
      ensures Valid()
      ensures rows == UpdateRows(old(rows), id, completed)
      ensures r == UpdatedTodo(old(rows), id, completed)
      ensures r.None? <==> id !in Ids(old(rows))
      ensures r.None? ==> rows == old(rows)
    {
      var changed := id in Ids(rows);
      FindRowAfterUpdate(rows, id, completed);
      rows := UpdateRows(rows, id, completed);
      if !changed {
        assert rows == old(rows);
        return None;
      }
      // the read-back by id finds the updated row
      var found := FindRow(rows, id);
      r := if found.Some? then Some(MapTodoRow(found.value)) else None;
    }

    /** `delete(id)`: true exactly when a row had the id; that row is
        removed and every other row kept in order. */
    method Delete(id: int) returns (removed: bool)
      requires Valid()
      modifies this
      ensures Valid()
      ensures removed <==> id in Ids(old(rows))
      ensures rows == DeleteRows(old(rows), id)
      ensures removed ==> |rows| == |old(rows)| - 1
      ensures !removed ==> rows == old(rows)
    {
      DeleteRowsDistinct(rows, id);
      if id !in Ids(rows) {
        DeleteRowsAbsent(rows, id);
      }
      removed := id in Ids(rows);
      rows := DeleteRows(rows, id);
    }
  }

  /** A created row is listed by the next read of the whole table, with its
      text and `completed = false`. */
  lemma CreatedRowIsListed(rows: seq<DbTodoRow>, row: DbTodoRow)
    requires row.completed == 0
    ensures MapTodoRow(row) in multiset(MapRows(rows + [row]))
    ensures MapTodoRow(row).completed == false
  {
    assert MapRows(rows + [row])[|rows|] == MapTodoRow(row);
  }
}
