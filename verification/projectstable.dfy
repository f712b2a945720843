/** The `projects` table both project stores write (its schema is in
    app/src/db/migrations.rs): an AUTOINCREMENT `id`, a UNIQUE `path`, a
    NOT NULL `name` and `project_type`, and two timestamps held as
    `YYYY-MM-DD HH:MM:SS` text, which therefore order as text. */
module ProjectsTable {
  import opened Wrappers
  import Sorting
  import Seqs

  datatype Row = Row(id: nat, path: string, name: string, projectType: string,
                     lastOpenedAt: Option<string>, createdAt: Option<string>)

  /** The rows in storage order, and the next AUTOINCREMENT key. */
  datatype Table = Table(rows: seq<Row>, nextId: nat)

  /** One row per path, distinct keys, every key below the next one. */
  predicate Valid(t: Table) {
    && (forall i, j :: 0 <= i < j < |t.rows| ==> t.rows[i].path != t.rows[j].path)
    && (forall i, j :: 0 <= i < j < |t.rows| ==> t.rows[i].id != t.rows[j].id)
    && (forall i :: 0 <= i < |t.rows| ==> t.rows[i].id < t.nextId)
  }

  function Empty(): (t: Table)
    ensures Valid(t) && |t.rows| == 0
  {
    Table([], 1)
  }

  /** Where the row for `path` is. */
  function IndexOf(rows: seq<Row>, path: string): (r: Option<nat>)
    ensures r.Some? ==> r.value < |rows| && rows[r.value].path == path
    ensures r.None? <==> forall i :: 0 <= i < |rows| ==> rows[i].path != path
  {
    if |rows| == 0 then None
    else if rows[0].path == path then Some(0)
    else match IndexOf(rows[1..], path)
      case None => None
      case Some(i) => Some(i + 1)
  }

  /** A row for a path not yet in the table, under the next key. */
  function Insert(t: Table, path: string, name: string, projectType: string,
                  lastOpenedAt: Option<string>, createdAt: Option<string>): (r: Table)
    requires Valid(t) && IndexOf(t.rows, path).None?
    ensures Valid(r)
    ensures r.rows == t.rows + [Row(t.nextId, path, name, projectType, lastOpenedAt, createdAt)]
    ensures r.nextId > t.nextId
  {
    Table(t.rows + [Row(t.nextId, path, name, projectType, lastOpenedAt, createdAt)], t.nextId + 1)
  }

  /** Row `i` replaced by `row`, which keeps its key and path. */
  function Update(t: Table, i: nat, row: Row): (r: Table)
    requires Valid(t) && i < |t.rows| && row.id == t.rows[i].id && row.path == t.rows[i].path
    ensures Valid(r)
    ensures |r.rows| == |t.rows| && r.rows[i] == row && r.nextId == t.nextId
    ensures forall j :: 0 <= j < |t.rows| && j != i ==> r.rows[j] == t.rows[j]
  {
    t.(rows := t.rows[i := row])
  }

  /** The table without the row for `path`, if there was one. */
  function Remove(t: Table, path: string): (r: (bool, Table))
    requires Valid(t)
    ensures Valid(r.1) && r.1.nextId == t.nextId
    ensures r.0 <==> IndexOf(t.rows, path).Some?
    ensures IndexOf(r.1.rows, path).None?
    ensures forall row :: row in r.1.rows <==> row in t.rows && row.path != path
  {
    match IndexOf(t.rows, path)
    case None => (false, t)
    case Some(i) =>
      RemoveAtValid(t, i);
      RemoveAtRows(t, i);
      (true, t.(rows := DropAt(t.rows, i)))
  }

  /** The rows without the one at `i`, later ones shifted down by one. */
  function DropAt(rows: seq<Row>, i: nat): (r: seq<Row>)
    requires i < |rows|
    ensures |r| == |rows| - 1
    ensures forall j :: 0 <= j < |r| ==> r[j] == rows[if j < i then j else j + 1]
  {
    rows[..i] + rows[i + 1..]
  }

  /** Dropping row `i` keeps the table valid, and no remaining row has its
      path. */
  lemma RemoveAtValid(t: Table, i: nat)
    requires Valid(t) && i < |t.rows|
    ensures Valid(t.(rows := DropAt(t.rows, i)))
    ensures forall j :: 0 <= j < |t.rows| - 1 ==> DropAt(t.rows, i)[j].path != t.rows[i].path
  {
    var rows := DropAt(t.rows, i);
    forall j, k | 0 <= j < k < |rows|
      ensures rows[j].path != rows[k].path && rows[j].id != rows[k].id
    {
      var a, b := if j < i then j else j + 1, if k < i then k else k + 1;
      assert rows[j] == t.rows[a] && rows[k] == t.rows[b] && a < b;
    }
    forall j | 0 <= j < |rows|
      ensures rows[j].id < t.nextId && rows[j].path != t.rows[i].path
    {
      var a := if j < i then j else j + 1;
      assert rows[j] == t.rows[a] && a != i;
    }
  }

  /** Dropping row `i` drops exactly the rows with its path. */
  lemma RemoveAtRows(t: Table, i: nat)
    requires Valid(t) && i < |t.rows|
    ensures forall row :: row in DropAt(t.rows, i) <==> row in t.rows && row.path != t.rows[i].path
  {
    forall row ensures row in DropAt(t.rows, i) ==> row in t.rows && row.path != t.rows[i].path {
      DroppedRowKept(t.rows, i, row);
    }
    forall row ensures row in t.rows && row.path != t.rows[i].path ==> row in DropAt(t.rows, i) {
      OtherRowKept(t.rows, i, row);
    }
  }

  lemma DroppedRowKept(rows: seq<Row>, i: nat, row: Row)
    requires i < |rows|
    requires forall j, k :: 0 <= j < k < |rows| ==> rows[j].path != rows[k].path
    ensures row in DropAt(rows, i) ==> row in rows && row.path != rows[i].path
  {
    var r := DropAt(rows, i);
    if row in r {
      var j :| 0 <= j < |r| && r[j] == row;
      var a := if j < i then j else j + 1;
      assert row == rows[a] && a != i;
    }
  }

  lemma OtherRowKept(rows: seq<Row>, i: nat, row: Row)
    requires i < |rows|
    ensures row in rows && row.path != rows[i].path ==> row in DropAt(rows, i)
  {
    if row in rows && row.path != rows[i].path {
      var k :| 0 <= k < |rows| && rows[k] == row;
      assert k != i;
      assert DropAt(rows, i)[if k < i then k else k - 1] == row;
    }
  }

  // ---- ORDER BY last_opened_at DESC LIMIT n -----------------------------

  /** `a` sorts no later than `b` in `ORDER BY last_opened_at DESC`: SQLite
      puts NULL below every text, hence last. */
  predicate NewerOrSame(a: Row, b: Row) {
    b.lastOpenedAt.None? || (a.lastOpenedAt.Some? && Sorting.LexLe(b.lastOpenedAt.value, a.lastOpenedAt.value))
  }

  lemma NewerOrSameIsPreorder()
    ensures Sorting.TotalPreorder(NewerOrSame)
  {
    forall a, b ensures NewerOrSame(a, b) || NewerOrSame(b, a) {
      if a.lastOpenedAt.Some? && b.lastOpenedAt.Some? {
        Sorting.LexLeTotal(a.lastOpenedAt.value, b.lastOpenedAt.value);
      }
    }
    forall a, b, c | NewerOrSame(a, b) && NewerOrSame(b, c) ensures NewerOrSame(a, c) {
      if c.lastOpenedAt.Some? {
        Sorting.LexLeTransitive(c.lastOpenedAt.value, b.lastOpenedAt.value, a.lastOpenedAt.value);
      }
    }
  }

  /** `kept` is drawn from `rows`, and no row left out is newer than any
      row kept. */
  predicate KeepsNewest(kept: seq<Row>, rows: seq<Row>) {
    && multiset(kept) <= multiset(rows)
    && forall x, y :: x in kept && y in multiset(rows) - multiset(kept) ==> NewerOrSame(x, y)
  }

  /** `SELECT … ORDER BY last_opened_at DESC LIMIT limit`, where a missing
      limit is no limit: the newest rows, newest first. SQLite leaves the
      order of rows that tie on the timestamp open; the model lists them in
      storage order. */
  function Newest(rows: seq<Row>, limit: Option<nat>): (r: seq<Row>)
    ensures |r| == if limit.Some? && limit.value < |rows| then limit.value else |rows|
    ensures forall i, j :: 0 <= i < j < |r| ==> NewerOrSame(r[i], r[j])
    ensures forall row :: row in r ==> row in rows
    ensures KeepsNewest(r, rows)
    ensures limit.None? ==> multiset(r) == multiset(rows)
  {
    NewerOrSameIsPreorder();
    var sorted := Sorting.SortBy(rows, NewerOrSame);
    var k := if limit.Some? && limit.value < |sorted| then limit.value else |sorted|;
    PrefixKeepsNewest(rows, sorted, k);
    assert k == |sorted| ==> sorted[..k] == sorted;
    sorted[..k]
  }

  /** A prefix of a newest-first listing of `rows` keeps the newest rows. */
  lemma PrefixKeepsNewest(rows: seq<Row>, sorted: seq<Row>, k: nat)
    requires k <= |sorted| && Sorting.SortedBy(sorted, NewerOrSame)
    requires multiset(sorted) == multiset(rows)
    ensures forall i, j :: 0 <= i < j < k ==> NewerOrSame(sorted[..k][i], sorted[..k][j])
    ensures forall row :: row in sorted[..k] ==> row in rows
    ensures KeepsNewest(sorted[..k], rows)
  {
    Sorting.PrefixFirst(sorted, k, NewerOrSame);
    assert sorted == sorted[..k] + sorted[k..];
    forall row | row in sorted[..k] ensures row in rows {
      assert row in multiset(sorted);
    }
  }

  /** A row is left out only when the limit is reached. */
  lemma LeftOutOnlyAtLimit(rows: seq<Row>, limit: Option<nat>, y: Row)
    requires y in multiset(rows) - multiset(Newest(rows, limit))
    ensures limit.Some? && |Newest(rows, limit)| == limit.value < |rows|
  {
    var r := Newest(rows, limit);
    var gone := multiset(rows) - multiset(r);
    assert multiset(rows) == multiset(r) + gone;
    assert |gone| > 0;
  }

  /** Among rows whose timestamps are all strictly older than `row`'s, `row`
      is listed first. */
  lemma NewestFirst(rows: seq<Row>, row: Row, limit: Option<nat>)
    requires row in rows && row.lastOpenedAt.Some?
    requires forall other :: other in rows && other != row ==>
      other.lastOpenedAt.None? || (Sorting.LexLe(other.lastOpenedAt.value, row.lastOpenedAt.value)
                                   && other.lastOpenedAt.value != row.lastOpenedAt.value)
    requires limit.None? || limit.value > 0
    ensures |Newest(rows, limit)| > 0 && Newest(rows, limit)[0] == row
  {
    var r := Newest(rows, limit);
    HeadIsNewest(rows, r, row);
  }

  /** The head of a newest-first listing that keeps the newest rows is a
      row strictly newer than all others, when there is one. */
  lemma HeadIsNewest(rows: seq<Row>, r: seq<Row>, row: Row)
    requires row in rows && row.lastOpenedAt.Some? && |r| > 0
    requires forall other :: other in rows && other != row ==>
      other.lastOpenedAt.None? || (Sorting.LexLe(other.lastOpenedAt.value, row.lastOpenedAt.value)
                                   && other.lastOpenedAt.value != row.lastOpenedAt.value)
    requires forall i, j :: 0 <= i < j < |r| ==> NewerOrSame(r[i], r[j])
    requires forall x :: x in r ==> x in rows
    requires KeepsNewest(r, rows)
    ensures r[0] == row
  {
    var first := r[0];
    assert first in r;
    if first != row {
      if row in r {
        var k :| 0 <= k < |r| && r[k] == row;
        assert NewerOrSame(r[0], r[k]);
      } else {
        assert row in multiset(rows) - multiset(r);
      }
      Sorting.LexLeAntisymmetric(first.lastOpenedAt.value, row.lastOpenedAt.value);
    }
  }
}
