/** The plain-SQL project store (app/src/db/projects.rs) over the
    `projects` table: an upsert keyed by the UNIQUE `path`, the most
    recently opened projects, a path search, and deletion.
    `CURRENT_TIMESTAMP` is the logical clock `now`. */
module ProjectsRepo {
  import opened Wrappers
  import Seqs
  import Sorting
  import SqlLike
  import ProjectsTable
  import opened Text

  /** A project as the store hands it out: `last_opened_at` is read as
      text, so a row whose timestamp is NULL cannot be read. */
  datatype Project = Project(id: nat, path: string, name: string, projectType: string, lastOpenedAt: string)

  /** Every row carries a `last_opened_at`. */
  predicate Stamped(t: ProjectsTable.Table) {
    forall i :: 0 <= i < |t.rows| ==> t.rows[i].lastOpenedAt.Some?
  }

  /** `upsert`: a new path is inserted with `last_opened_at` (and, by
      default, `created_at`) now; an existing path's row keeps its key and
      `created_at` and takes the new name, type and `last_opened_at`. */
  function Upsert(t: ProjectsTable.Table, path: string, name: string, projectType: string, now: string)
    : (r: ProjectsTable.Table)
    requires ProjectsTable.Valid(t)
    ensures ProjectsTable.Valid(r)
    ensures Stamped(t) ==> Stamped(r)
    ensures ProjectsTable.IndexOf(t.rows, path).None? ==>
      r.rows == t.rows + [ProjectsTable.Row(t.nextId, path, name, projectType, Some(now), Some(now))]
    ensures ProjectsTable.IndexOf(t.rows, path).Some? ==> var i := ProjectsTable.IndexOf(t.rows, path).value;
      && |r.rows| == |t.rows|
      && r.rows[i] == t.rows[i].(name := name, projectType := projectType, lastOpenedAt := Some(now))
      && (forall j :: 0 <= j < |t.rows| && j != i ==> r.rows[j] == t.rows[j])
    ensures ProjectsTable.IndexOf(r.rows, path).Some?
  {
    match ProjectsTable.IndexOf(t.rows, path)
    case None =>
      var r := ProjectsTable.Insert(t, path, name, projectType, Some(now), Some(now));
      assert r.rows[|t.rows|].path == path;
      r
    case Some(i) =>
      ProjectsTable.Update(t, i, t.rows[i].(name := name, projectType := projectType, lastOpenedAt := Some(now)))
  }

  /** SQLite reads a negative `LIMIT` as no limit. */
  function Limit(limit: int): (r: Option<nat>)
    ensures r.None? <==> limit < 0
    ensures r.Some? ==> r.value == limit
  {
    if limit < 0 then None else Some(limit)
  }

  function AsProject(row: ProjectsTable.Row): (p: Project)
    requires row.lastOpenedAt.Some?
    ensures p.id == row.id && p.path == row.path && p.name == row.name && p.projectType == row.projectType
    ensures Some(p.lastOpenedAt) == row.lastOpenedAt
  {
    Project(row.id, row.path, row.name, row.projectType, row.lastOpenedAt.value)
  }

  /** Selected rows read as projects; `None` when one of them cannot be
      read (a NULL `last_opened_at`), which fails the whole fetch. */
  function ReadAll(rows: seq<ProjectsTable.Row>): (r: Option<seq<Project>>)
    ensures r.Some? <==> forall i :: 0 <= i < |rows| ==> rows[i].lastOpenedAt.Some?
    ensures r.Some? ==> |r.value| == |rows| && forall i :: 0 <= i < |rows| ==> r.value[i] == AsProject(rows[i])
  {
    if |rows| == 0 then Some([])
    else if rows[0].lastOpenedAt.None? then None
    else match ReadAll(rows[1..])
      case None => None
      case Some(rest) => Some([AsProject(rows[0])] + rest)
  }

  /** `get_recent`: the most recently opened projects first, at most
      `limit` of them. */
  function GetRecent(t: ProjectsTable.Table, limit: int): (r: Option<seq<Project>>)
    ensures Stamped(t) ==> r.Some?
    ensures r.Some? ==> Listing(t.rows, Limit(limit), r.value)
  {
    Selected(t.rows, Limit(limit))
  }

  /** `search`: the projects whose path matches `LIKE '%query%'`, most
      recently opened first, at most `limit` of them. The query's own `%`
      and `_` act as wildcards. */
  function Search(t: ProjectsTable.Table, query: string, limit: int): (r: Option<seq<Project>>)
    ensures Stamped(t) ==> r.Some?
    ensures r.Some? ==> forall p :: p in r.value ==> SqlLike.Like(p.path, SqlLike.ContainsPattern(query))
    ensures r.Some? ==> Listing(Matching(t.rows, query), Limit(limit), r.value)
  {
    MatchingStamped(t, query);
    var r := Selected(Matching(t.rows, query), Limit(limit));
    assert r.Some? ==> forall p :: p in r.value ==> SqlLike.Like(p.path, SqlLike.ContainsPattern(query)) by {
      if r.Some? {
        ListedMatch(t.rows, query, Limit(limit), r.value);
      }
    }
    r
  }

  /** The rows a stamped table matches are stamped. */
  lemma MatchingStamped(t: ProjectsTable.Table, query: string)
    ensures Stamped(t) ==> forall i :: 0 <= i < |Matching(t.rows, query)| ==> Matching(t.rows, query)[i].lastOpenedAt.Some?
  {
    if Stamped(t) {
      forall i | 0 <= i < |Matching(t.rows, query)| ensures Matching(t.rows, query)[i].lastOpenedAt.Some? {
        assert Matching(t.rows, query)[i] in t.rows;
      }
    }
  }

  /** Every project listed from the matching rows has a matching path. */
  lemma ListedMatch(rows: seq<ProjectsTable.Row>, query: string, limit: Option<nat>, listed: seq<Project>)
    requires Listing(Matching(rows, query), limit, listed)
    ensures forall p :: p in listed ==> SqlLike.Like(p.path, SqlLike.ContainsPattern(query))
  {
    forall p | p in listed ensures SqlLike.Like(p.path, SqlLike.ContainsPattern(query)) {
      var row :| row in Matching(rows, query) && row.lastOpenedAt.Some? && p == AsProject(row);
      assert PathMatches(row, query);
    }
  }

  predicate PathMatches(row: ProjectsTable.Row, query: string) {
    SqlLike.Like(row.path, SqlLike.ContainsPattern(query))
  }

  /** The rows whose path matches `LIKE '%query%'`, in storage order. */
  function Matching(rows: seq<ProjectsTable.Row>, query: string): (r: seq<ProjectsTable.Row>)
    ensures forall row :: row in r <==> row in rows && PathMatches(row, query)
  {
    Seqs.Filter(rows, (row: ProjectsTable.Row) => PathMatches(row, query))
  }

  /** No readable row whose project is missing from `listed` was opened
      after a project that is listed: the list holds the newest. */
  predicate NewestListed(rows: seq<ProjectsTable.Row>, listed: seq<Project>) {
    forall row, p :: row in rows && row.lastOpenedAt.Some? && AsProject(row) !in listed && p in listed ==>
      Sorting.LexLe(row.lastOpenedAt.value, p.lastOpenedAt)
  }

  /** `listed` is what `ORDER BY last_opened_at DESC LIMIT limit` reads
      from `rows`: as many projects as the limit lets through, newest first,
      each read from a row, every readable row when there is no limit, and
      no readable row left out that is newer than one listed. */
  predicate Listing(rows: seq<ProjectsTable.Row>, limit: Option<nat>, listed: seq<Project>) {
    && |listed| == (if limit.Some? && limit.value < |rows| then limit.value else |rows|)
    && (forall i, j :: 0 <= i < j < |listed| ==> Sorting.LexLe(listed[j].lastOpenedAt, listed[i].lastOpenedAt))
    && (forall p :: p in listed ==> exists row :: row in rows && row.lastOpenedAt.Some? && p == AsProject(row))
    && (limit.None? ==> forall row :: row in rows && row.lastOpenedAt.Some? ==> AsProject(row) in listed)
    && NewestListed(rows, listed)
  }

  /** `ORDER BY last_opened_at DESC LIMIT …` over `rows`, read as projects:
      the fetch fails only when a selected row is unreadable. */
  function Selected(rows: seq<ProjectsTable.Row>, limit: Option<nat>): (r: Option<seq<Project>>)
    ensures (forall i :: 0 <= i < |rows| ==> rows[i].lastOpenedAt.Some?) ==> r.Some?
    ensures r.Some? ==> Listing(rows, limit, r.value)
  {
    SelectedFacts(rows, limit);
    var r := ReadAll(ProjectsTable.Newest(rows, limit));
    assert r.Some? ==> NewestListed(rows, r.value) by {
      if r.Some? {
        SelectedNewest(rows, limit);
      }
    }
    r
  }

  /** What the limit leaves out is no newer than what it keeps. */
  lemma SelectedNewest(rows: seq<ProjectsTable.Row>, limit: Option<nat>)
    requires ReadAll(ProjectsTable.Newest(rows, limit)).Some?
    ensures NewestListed(rows, ReadAll(ProjectsTable.Newest(rows, limit)).value)
  {
    var newest := ProjectsTable.Newest(rows, limit);
    ListedNewest(rows, newest, ReadAll(newest).value);
  }

  /** The projects read from rows that keep the newest hold the newest. */
  lemma ListedNewest(rows: seq<ProjectsTable.Row>, newest: seq<ProjectsTable.Row>, listed: seq<Project>)
    requires ProjectsTable.KeepsNewest(newest, rows)
    requires |listed| == |newest| && forall k :: 0 <= k < |newest| ==> newest[k].lastOpenedAt.Some? && listed[k] == AsProject(newest[k])
    ensures NewestListed(rows, listed)
  {
    forall row, p | row in rows && row.lastOpenedAt.Some? && AsProject(row) !in listed && p in listed
      ensures Sorting.LexLe(row.lastOpenedAt.value, p.lastOpenedAt)
    {
      LeftOut(rows, newest, listed, row);
      var i :| 0 <= i < |listed| && listed[i] == p;
      assert newest[i] in newest;
      assert ProjectsTable.NewerOrSame(newest[i], row);
    }
  }

  /** A readable row whose project is not listed was not selected. */
  lemma LeftOut(rows: seq<ProjectsTable.Row>, newest: seq<ProjectsTable.Row>, listed: seq<Project>, row: ProjectsTable.Row)
    requires |listed| == |newest| && forall k :: 0 <= k < |newest| ==> newest[k].lastOpenedAt.Some? && listed[k] == AsProject(newest[k])
    requires multiset(newest) <= multiset(rows)
    requires row in rows && row.lastOpenedAt.Some? && AsProject(row) !in listed
    ensures row in multiset(rows) - multiset(newest)
  {
    forall k | 0 <= k < |newest| ensures newest[k] != row {
      assert listed[k] == AsProject(newest[k]);
    }
    assert row !in newest;
  }

  lemma SelectedFacts(rows: seq<ProjectsTable.Row>, limit: Option<nat>)
    ensures var newest := ProjectsTable.Newest(rows, limit);
      var r := ReadAll(newest);
      && ((forall i :: 0 <= i < |rows| ==> rows[i].lastOpenedAt.Some?) ==> r.Some?)
      && (r.Some? ==> forall i, j :: 0 <= i < j < |r.value| ==>
            Sorting.LexLe(r.value[j].lastOpenedAt, r.value[i].lastOpenedAt))
      && (r.Some? ==> forall p :: p in r.value ==> exists row :: row in rows && row.lastOpenedAt.Some? && p == AsProject(row))
      && (r.Some? && limit.None? ==>
            forall row :: row in rows && row.lastOpenedAt.Some? ==> AsProject(row) in r.value)
  {
    var newest := ProjectsTable.Newest(rows, limit);
    var r := ReadAll(newest);
    if forall i :: 0 <= i < |rows| ==> rows[i].lastOpenedAt.Some? {
      forall i | 0 <= i < |newest| ensures newest[i].lastOpenedAt.Some? {
        assert newest[i] in rows;
      }
    }
    if r.Some? {
      forall i, j | 0 <= i < j < |r.value|
        ensures Sorting.LexLe(r.value[j].lastOpenedAt, r.value[i].lastOpenedAt)
      {
        assert ProjectsTable.NewerOrSame(newest[i], newest[j]);
      }
      forall p | p in r.value
        ensures exists row :: row in rows && row.lastOpenedAt.Some? && p == AsProject(row)
      {
        var i :| 0 <= i < |r.value| && r.value[i] == p;
        assert newest[i] in newest;
      }
      if limit.None? {
        forall row | row in rows && row.lastOpenedAt.Some? ensures AsProject(row) in r.value {
          assert row in multiset(rows);
          assert row in newest;
          var k :| 0 <= k < |newest| && newest[k] == row;
          assert r.value[k] == AsProject(row);
        }
      }
    }
  }

  /** `delete`: whether a row went, and the table without it. */
  function Delete(t: ProjectsTable.Table, path: string): (r: (bool, ProjectsTable.Table))
    requires ProjectsTable.Valid(t)
    ensures ProjectsTable.Valid(r.1)
    ensures r.0 <==> ProjectsTable.IndexOf(t.rows, path).Some?
    ensures ProjectsTable.IndexOf(r.1.rows, path).None?
    ensures Stamped(t) ==> Stamped(r.1)
    ensures forall row :: row in r.1.rows <==> row in t.rows && row.path != path
  {
    var r := ProjectsTable.Remove(t, path);
    assert Stamped(t) ==> Stamped(r.1) by {
      if Stamped(t) {
        forall i | 0 <= i < |r.1.rows| ensures r.1.rows[i].lastOpenedAt.Some? {
          assert r.1.rows[i] in t.rows;
        }
      }
    }
    r
  }

  /** A deleted path is listed no more, whatever the limit. */
  lemma DeletedNotListed(t: ProjectsTable.Table, path: string, limit: int)
    requires ProjectsTable.Valid(t)
    ensures GetRecent(Delete(t, path).1, limit).Some? ==>
      forall p :: p in GetRecent(Delete(t, path).1, limit).value ==> p.path != path
  {
  }

  /** Upserting a path twice leaves one row for it, under its first key. */
  lemma UpsertKeepsKey(t: ProjectsTable.Table, path: string, n1: string, n2: string, ty1: string, ty2: string,
                       now1: string, now2: string)
    requires ProjectsTable.Valid(t) && ProjectsTable.IndexOf(t.rows, path).None?
    ensures var t1 := Upsert(t, path, n1, ty1, now1);
      var t2 := Upsert(t1, path, n2, ty2, now2);
      && |t2.rows| == |t.rows| + 1
      && t2.rows[|t.rows|] == ProjectsTable.Row(t.nextId, path, n2, ty2, Some(now2), Some(now1))
  {
    var t1 := Upsert(t, path, n1, ty1, now1);
    assert t1.rows[|t.rows|].path == path;
    UniqueIndex(t1, |t.rows|);
  }

  /** In a valid table the row holding a path is the one `IndexOf` finds. */
  lemma UniqueIndex(t: ProjectsTable.Table, i: nat)
    requires ProjectsTable.Valid(t) && i < |t.rows|
    ensures ProjectsTable.IndexOf(t.rows, t.rows[i].path) == Some(i)
  {
    var k := ProjectsTable.IndexOf(t.rows, t.rows[i].path);
    assert k.Some?;
    assert !(k.value < i) && !(i < k.value);
  }

  /** The repository's own test: insert, list, update, list, delete, list. */
  lemma CrudSequence(now1: string, now2: string)
    ensures var t1 := Upsert(ProjectsTable.Empty(), "/path/to/project", "MyApp", "xcode", now1);
      var t2 := Upsert(t1, "/path/to/project", "MyApp Updated", "xcode", now2);
      && GetRecent(t1, 10) == Some([Project(1, "/path/to/project", "MyApp", "xcode", now1)])
      && GetRecent(t2, 10) == Some([Project(1, "/path/to/project", "MyApp Updated", "xcode", now2)])
      && Delete(t2, "/path/to/project").0
      && GetRecent(Delete(t2, "/path/to/project").1, 10) == Some([])
  {
    var path := "/path/to/project";
    var t1 := Upsert(ProjectsTable.Empty(), path, "MyApp", "xcode", now1);
    InsertIntoEmpty(path, "MyApp", "xcode", now1);
    OneRowRead(t1.rows[0]);
    var t2 := Upsert(t1, path, "MyApp Updated", "xcode", now2);
    UpsertSingle(t1, "MyApp Updated", "xcode", now2);
    OneRowRead(t2.rows[0]);
    DeleteSingle(t2);
  }

  /** The search in the same test: `/path` finds the one project. */
  lemma SearchFindsProject(now: string)
    ensures var t := Upsert(ProjectsTable.Empty(), "/path/to/project", "MyApp", "xcode", now);
      Search(t, "/path", 10).Some? && |Search(t, "/path", 10).value| == 1
  {
    SearchFindsInserted("/path", "/to/project", "MyApp", "xcode", now);
    assert "/path" + "/to/project" == "/path/to/project";
  }

  /** Searching a one-project table for a wildcard-free prefix of its path
      finds that project. */
  lemma SearchFindsInserted(query: string, rest: string, name: string, projectType: string, now: string)
    requires SqlLike.NoWildcards(query)
    ensures var t := Upsert(ProjectsTable.Empty(), query + rest, name, projectType, now);
      Search(t, query, 10).Some? && |Search(t, query, 10).value| == 1
  {
    var path := query + rest;
    var t := Upsert(ProjectsTable.Empty(), path, name, projectType, now);
    var row := ProjectsTable.Row(1, path, name, projectType, Some(now), Some(now));
    InsertIntoEmpty(path, name, projectType, now);
    PathMatchesPrefix(path, query, rest);
    OnlyMatch(row, query);
    assert Stamped(t);
  }

  lemma OnlyMatch(row: ProjectsTable.Row, query: string)
    requires PathMatches(row, query)
    ensures |Seqs.Filter([row], (r: ProjectsTable.Row) => PathMatches(r, query))| == 1
  {
    Seqs.FilterCons([row], (r: ProjectsTable.Row) => PathMatches(r, query));
    assert [row][1..] == [];
  }

  /** A path matches a wildcard-free query it starts with. */
  lemma PathMatchesPrefix(path: string, query: string, rest: string)
    requires path == query + rest && SqlLike.NoWildcards(query)
    ensures SqlLike.Like(path, SqlLike.ContainsPattern(query))
  {
    assert AsciiLower(path)[..|query|] == AsciiLower(query);
    assert OccursAt(AsciiLower(path), AsciiLower(query), 0);
    SqlLike.ContainsPatternIsSubstring(path, query);
  }

  lemma InsertIntoEmpty(path: string, name: string, projectType: string, now: string)
    ensures Upsert(ProjectsTable.Empty(), path, name, projectType, now).rows
            == [ProjectsTable.Row(1, path, name, projectType, Some(now), Some(now))]
  {
  }

  lemma UpsertSingle(t: ProjectsTable.Table, name: string, projectType: string, now: string)
    requires ProjectsTable.Valid(t) && |t.rows| == 1
    ensures Upsert(t, t.rows[0].path, name, projectType, now).rows
            == [t.rows[0].(name := name, projectType := projectType, lastOpenedAt := Some(now))]
  {
    assert ProjectsTable.IndexOf(t.rows, t.rows[0].path) == Some(0);
  }

  lemma DeleteSingle(t: ProjectsTable.Table)
    requires ProjectsTable.Valid(t) && |t.rows| == 1
    ensures Delete(t, t.rows[0].path).0
    ensures GetRecent(Delete(t, t.rows[0].path).1, 10) == Some([])
  {
    var path := t.rows[0].path;
    assert ProjectsTable.IndexOf(t.rows, path) == Some(0);
    var t3 := Delete(t, path).1;
    assert forall row :: row !in t3.rows;
    assert |t3.rows| == 0;
  }

  lemma OneRowRead(row: ProjectsTable.Row)
    requires row.lastOpenedAt.Some?
    ensures Selected([row], Some(10)) == Some([AsProject(row)])
  {
    var newest := ProjectsTable.Newest([row], Some(10));
    assert |newest| == 1 && newest[0] in [row];
    assert newest == [row];
    assert newest[1..] == [];
    assert ReadAll(newest[1..]) == Some([]);
    assert [AsProject(row)] + [] == [AsProject(row)];
    assert ReadAll(newest) == Some([AsProject(row)]);
  }
}
