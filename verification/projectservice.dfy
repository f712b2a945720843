/** Project detection and the recent-projects store of the web backend
    (app/src/services/projects.rs): which path names a project, what a
    directory holds, and the sea-orm reads and writes of the `projects`
    table. */
module ProjectService {
  import opened Wrappers
  import opened Text
  import Paths
  import Seqs
  import SqlLike
  import ProjectEntity
  import ProjectsTable
  import Sorting

  datatype Project = Project(path: string, name: string, projectType: ProjectEntity.ProjectType, valid: bool)

  const WORKSPACE_SUFFIX := ".xcworkspace"
  const PROJECT_SUFFIX := ".xcodeproj"

  /** `is_project_path`: the file name is a workspace or project bundle, or
      a Gradle build file. It agrees with `ProjectType::from_path`. */
  function IsProjectPath(path: Paths.Path): (b: bool)
    ensures b <==> ProjectEntity.FromPath(path).Some?
  {
    match Paths.FileName(path)
    case None => false
    case Some(name) =>
      EndsWith(name, WORKSPACE_SUFFIX) || EndsWith(name, PROJECT_SUFFIX)
      || name == "build.gradle" || name == "build.gradle.kts"
  }

  /** The name of an Xcode bundle: its file name with the suffix stripped
      as often as it repeats. */
  function BundleName(fileName: string, suffix: string): (name: string)
    requires suffix != []
    ensures !EndsWith(name, suffix)
    ensures exists k: nat :: fileName == name + Repeat(suffix, k)
  {
    TrimEndMatches(fileName, suffix)
  }

  /** A stem that does not itself end with the suffix is the bundle's
      name. */
  lemma BundleNameIsStem(stem: string, suffix: string)
    requires suffix != [] && !EndsWith(stem, suffix)
    ensures BundleName(stem + suffix, suffix) == stem
  {
    var s := stem + suffix;
    assert s[|s| - |suffix|..] == suffix;
    assert s[..|s| - |suffix|] == stem;
    assert StripSuffixes(stem, suffix) == (stem, 0);
  }

  /** The name a Gradle project goes by: that of the directory holding the
      build file, or "Unknown". */
  function GradleName(dir: Option<Paths.Path>): (name: string)
    ensures dir.Some? && Paths.FileName(dir.value).Some? ==> name == Paths.FileName(dir.value).value
    ensures !(dir.Some? && Paths.FileName(dir.value).Some?) ==> name == "Unknown"
  {
    if dir.Some? && Paths.FileName(dir.value).Some? then Paths.FileName(dir.value).value else "Unknown"
  }

  /** `detect_from_project_path`: a project exactly for the paths
      `is_project_path` accepts, whether or not they exist. */
  function DetectFromProjectPath(fs: Paths.Fs, path: Paths.Path): (r: Option<Project>)
    ensures r.Some? <==> IsProjectPath(path)
    ensures r.Some? ==> r.value.path == Paths.Display(path) && r.value.valid == Paths.Exists(fs, path)
    ensures r.Some? ==> ProjectEntity.FromPath(path) == Some(r.value.projectType)
    ensures r.Some? && r.value.projectType == ProjectEntity.Android ==> r.value.name == GradleName(Paths.Parent(path))
    ensures r.Some? && r.value.projectType == ProjectEntity.Xcode ==> var fileName := Paths.FileName(path).value;
      r.value.name == BundleName(fileName, if EndsWith(fileName, WORKSPACE_SUFFIX) then WORKSPACE_SUFFIX else PROJECT_SUFFIX)
  {
    match Paths.FileName(path)
    case None => None
    case Some(fileName) =>
      if EndsWith(fileName, WORKSPACE_SUFFIX) then
        Some(Project(Paths.Display(path), BundleName(fileName, WORKSPACE_SUFFIX), ProjectEntity.Xcode, Paths.Exists(fs, path)))
      else if EndsWith(fileName, PROJECT_SUFFIX) then
        Some(Project(Paths.Display(path), BundleName(fileName, PROJECT_SUFFIX), ProjectEntity.Xcode, Paths.Exists(fs, path)))
      else if fileName == "build.gradle" || fileName == "build.gradle.kts" then
        Some(Project(Paths.Display(path), GradleName(Paths.Parent(path)), ProjectEntity.Android, Paths.Exists(fs, path)))
      else None
  }

  /** The project keeps the path's text as given: with and without a
      trailing '/', the same bundle gives the same name and validity but
      two different paths, which the store keys two rows by. */
  lemma TextKeptAsGiven(fs: Paths.Fs, t: string)
    requires t != [] && IsProjectPath(Paths.Parse(t))
    ensures var a, b := DetectFromProjectPath(fs, Paths.Parse(t)), DetectFromProjectPath(fs, Paths.Parse(t + "/"));
      && a.Some? && b.Some?
      && a.value.path == t && b.value.path == t + "/"
      && a.value.name == b.value.name && a.value.projectType == b.value.projectType
      && a.value.valid == b.value.valid
  {
    Paths.TrailingSeparator(t);
  }

  // ---- searching a directory ------------------------------------------

  predicate IsWorkspaceEntry(name: string) {
    EndsWith(name, WORKSPACE_SUFFIX)
  }

  predicate IsProjectEntry(name: string) {
    EndsWith(name, PROJECT_SUFFIX) || name == "build.gradle" || name == "build.gradle.kts"
  }

  /** The project entry `name` of directory `dir` stands for. */
  function EntryProject(fs: Paths.Fs, dir: Paths.Path, name: string): (r: Project)
    requires IsWorkspaceEntry(name) || IsProjectEntry(name)
    ensures r.path == Paths.Display(Paths.Child(dir, name))
    ensures r.valid == Paths.Exists(fs, Paths.Child(dir, name))
    ensures r.projectType == ProjectEntity.Xcode <==> IsWorkspaceEntry(name) || EndsWith(name, PROJECT_SUFFIX)
    ensures r.projectType == ProjectEntity.Android ==> r.name == GradleName(Some(dir))
    ensures r.projectType == ProjectEntity.Xcode ==>
      r.name == BundleName(name, if IsWorkspaceEntry(name) then WORKSPACE_SUFFIX else PROJECT_SUFFIX)
  {
    var entry := Paths.Child(dir, name);
    if IsWorkspaceEntry(name) then
      Project(Paths.Display(entry), BundleName(name, WORKSPACE_SUFFIX), ProjectEntity.Xcode, Paths.Exists(fs, entry))
    else if EndsWith(name, PROJECT_SUFFIX) then
      Project(Paths.Display(entry), BundleName(name, PROJECT_SUFFIX), ProjectEntity.Xcode, Paths.Exists(fs, entry))
    else
      Project(Paths.Display(entry), GradleName(Some(dir)), ProjectEntity.Android, Paths.Exists(fs, entry))
  }

  /** The first entry, in listing order, that `wanted` accepts. */
  function ScanFor(names: seq<string>, wanted: string -> bool): (r: Option<string>)
    ensures r.Some? ==> wanted(r.value)
    ensures r.Some? ==> exists i :: 0 <= i < |names| && names[i] == r.value && forall j :: 0 <= j < i ==> !wanted(names[j])
    ensures r.None? <==> forall i :: 0 <= i < |names| ==> !wanted(names[i])
  {
    if |names| == 0 then None
    else if wanted(names[0]) then Some(names[0])
    else
      var rest := ScanFor(names[1..], wanted);
      assert rest.Some? ==> exists i :: 0 <= i < |names[1..]| && names[1..][i] == rest.value
                             && (forall j :: 0 <= j < i ==> !wanted(names[1..][j]))
                             && names[i + 1] == rest.value;
      rest
  }

  /** The scan reports the entry at the first index `wanted` accepts. */
  lemma {:induction false} ScanForFindsFirst(names: seq<string>, wanted: string -> bool)
    ensures var k := Seqs.FirstWhere(names, wanted);
      ScanFor(names, wanted) == if k.Some? then Some(names[k.value]) else None
  {
    if |names| > 0 && !wanted(names[0]) {
      ScanForFindsFirst(names[1..], wanted);
    }
  }

  /** `detect_from_directory`: a first pass for a workspace, which wins
      wherever it is listed; then a second for the first project bundle or
      Gradle build file. */
  function DetectFromDirectory(fs: Paths.Fs, dir: Paths.Path): (r: Option<Project>)
    ensures Paths.Listing(fs, dir).None? ==> r.None?
    ensures Paths.Listing(fs, dir).Some? ==> var names := Paths.Listing(fs, dir).value;
      && (Seqs.FirstWhere(names, IsWorkspaceEntry).Some? ==>
            r == Some(EntryProject(fs, dir, names[Seqs.FirstWhere(names, IsWorkspaceEntry).value])))
      && (Seqs.FirstWhere(names, IsWorkspaceEntry).None? && Seqs.FirstWhere(names, IsProjectEntry).Some? ==>
            r == Some(EntryProject(fs, dir, names[Seqs.FirstWhere(names, IsProjectEntry).value])))
      && (Seqs.FirstWhere(names, IsWorkspaceEntry).None? && Seqs.FirstWhere(names, IsProjectEntry).None? ==>
            r.None?)
  {
    match Paths.Listing(fs, dir)
    case None => None
    case Some(names) =>
      ScanForFindsFirst(names, IsWorkspaceEntry);
      ScanForFindsFirst(names, IsProjectEntry);
      match ScanFor(names, IsWorkspaceEntry)
      case Some(name) => Some(EntryProject(fs, dir, name))
      case None =>
        match ScanFor(names, IsProjectEntry)
        case Some(name) => Some(EntryProject(fs, dir, name))
        case None => None
  }

  /** Whatever order the directory lists its entries in, a workspace in it
      is what is found. */
  lemma WorkspaceWins(fs: Paths.Fs, dir: Paths.Path, i: nat)
    requires Paths.Listing(fs, dir).Some? && i < |Paths.Listing(fs, dir).value|
    requires IsWorkspaceEntry(Paths.Listing(fs, dir).value[i])
    ensures DetectFromDirectory(fs, dir).Some?
    ensures DetectFromDirectory(fs, dir).value.projectType == ProjectEntity.Xcode
    ensures EndsWith(DetectFromDirectory(fs, dir).value.path, WORKSPACE_SUFFIX)
  {
    var names := Paths.Listing(fs, dir).value;
    var k := Seqs.FirstWhere(names, IsWorkspaceEntry).value;
    var name := names[k];
    EndsWithTransitive(Paths.Display(Paths.Child(dir, name)), name, WORKSPACE_SUFFIX);
  }

  lemma EndsWithTransitive(s: string, t: string, u: string)
    requires EndsWith(s, t) && EndsWith(t, u)
    ensures EndsWith(s, u)
  {
    assert s[|s| - |u|..] == t[|t| - |u|..];
  }

  /** `detect_project`: a project path is taken as it is; a directory is
      searched; anything else is no project. */
  function DetectProject(fs: Paths.Fs, path: Paths.Path): (r: Option<Project>)
    ensures IsProjectPath(path) ==> r.Some? && r.value.path == Paths.Display(path)
    ensures !IsProjectPath(path) && !Paths.IsDir(fs, path) ==> r.None?
    ensures !IsProjectPath(path) && Paths.IsDir(fs, path) ==> r == DetectFromDirectory(fs, path)
  {
    if IsProjectPath(path) then DetectFromProjectPath(fs, path)
    else if Paths.IsDir(fs, path) then DetectFromDirectory(fs, path)
    else None
  }

  // ---- the projects table through sea-orm ---------------------------------

  /** SQLite's complaint when a row leaves `project_type` unset. */
  const NOT_NULL_PROJECT_TYPE := "NOT NULL constraint failed: projects.project_type"

  /** `save_project` as written: an existing row gets the new name and
      `last_opened_at = now`; a new path is inserted without a
      `project_type`, which the column's NOT NULL constraint refuses. */
  function SaveProjectAsWritten(t: ProjectsTable.Table, path: string, name: string, now: string)
    : (r: Result<ProjectsTable.Table, string>)
    requires ProjectsTable.Valid(t)
    ensures r.Err? <==> ProjectsTable.IndexOf(t.rows, path).None?
    ensures r.Err? ==> r.error == NOT_NULL_PROJECT_TYPE
    ensures r.Ok? ==> ProjectsTable.Valid(r.value) && |r.value.rows| == |t.rows|
  {
    match ProjectsTable.IndexOf(t.rows, path)
    case None => Err(NOT_NULL_PROJECT_TYPE)
    case Some(i) => Ok(ProjectsTable.Update(t, i, t.rows[i].(name := name, lastOpenedAt := Some(now))))
  }

  /** `save_project` with the insert supplying the project's type: an
      existing row gets the new name and `last_opened_at = now`, keeping its
      key, type and `created_at`; a new path gets a row of its own whose two
      timestamps are `now`. Every other row is left alone. */
  function SaveProject(t: ProjectsTable.Table, path: string, name: string, projectType: string, now: string)
    : (r: ProjectsTable.Table)
    requires ProjectsTable.Valid(t)
    ensures ProjectsTable.Valid(r)
    ensures ProjectsTable.IndexOf(r.rows, path).Some?
    ensures var row := r.rows[ProjectsTable.IndexOf(r.rows, path).value];
      row.name == name && row.lastOpenedAt == Some(now)
    ensures ProjectsTable.IndexOf(t.rows, path).Some? ==>
      var old_ := t.rows[ProjectsTable.IndexOf(t.rows, path).value];
      var new_ := r.rows[ProjectsTable.IndexOf(r.rows, path).value];
      |r.rows| == |t.rows| && new_.id == old_.id && new_.createdAt == old_.createdAt
      && new_.projectType == old_.projectType
    ensures ProjectsTable.IndexOf(t.rows, path).None? ==>
      var new_ := r.rows[ProjectsTable.IndexOf(r.rows, path).value];
      |r.rows| == |t.rows| + 1 && new_.createdAt == Some(now) && new_.projectType == projectType
      && new_.id == t.nextId
    ensures forall row :: row in t.rows && row.path != path ==> row in r.rows
  {
    match ProjectsTable.IndexOf(t.rows, path)
    case Some(i) =>
      var r := ProjectsTable.Update(t, i, t.rows[i].(name := name, lastOpenedAt := Some(now)));
      assert ProjectsTable.IndexOf(r.rows, path) == Some(i) by {
        UniqueIndex(r, i, path);
      }
      r
    case None =>
      var r := ProjectsTable.Insert(t, path, name, projectType, Some(now), Some(now));
      assert ProjectsTable.IndexOf(r.rows, path) == Some(|t.rows|) by {
        UniqueIndex(r, |t.rows|, path);
      }
      r
  }

  /** In a table with one row per path, the row holding `path` is the one
      `IndexOf` finds. */
  lemma UniqueIndex(t: ProjectsTable.Table, i: nat, path: string)
    requires ProjectsTable.Valid(t) && i < |t.rows| && t.rows[i].path == path
    ensures ProjectsTable.IndexOf(t.rows, path) == Some(i)
  {
  }

  // ---- listing recent projects -----------------------------------------

  /** The row matches `path LIKE '%query%'`, as sea-orm's `contains` asks. */
  predicate MatchesQuery(row: ProjectsTable.Row, query: Option<string>) {
    query.None? || SqlLike.Like(row.path, SqlLike.ContainsPattern(query.value))
  }

  /** The rows matching the query, in storage order. */
  function QueryRows(t: ProjectsTable.Table, query: Option<string>): (r: seq<ProjectsTable.Row>)
    ensures forall row :: row in r <==> row in t.rows && MatchesQuery(row, query)
  {
    Seqs.Filter(t.rows, row => MatchesQuery(row, query))
  }

  /** The rows `get_recent_projects` selects: the newest `limit` of those
      matching the query (all of them when fewer match), newest
      `last_opened_at` first. */
  function RecentRows(t: ProjectsTable.Table, query: Option<string>, limit: nat): (r: seq<ProjectsTable.Row>)
    ensures |r| == if limit < |QueryRows(t, query)| then limit else |QueryRows(t, query)|
    ensures forall row :: row in r ==> row in t.rows && MatchesQuery(row, query)
    ensures forall i, j :: 0 <= i < j < |r| ==> ProjectsTable.NewerOrSame(r[i], r[j])
    ensures ProjectsTable.KeepsNewest(r, QueryRows(t, query))
  {
    ProjectsTable.Newest(QueryRows(t, query), Some(limit))
  }

  /** `Model::project_type`: the type the stored path names. */
  function RowType(row: ProjectsTable.Row): Option<ProjectEntity.ProjectType> {
    ProjectEntity.FromPath(Paths.Parse(row.path))
  }

  /** The row's path names a project type. */
  predicate Typed(row: ProjectsTable.Row) {
    RowType(row).Some?
  }

  /** The project a typed row is shown as. */
  function ShownAs(fs: Paths.Fs, row: ProjectsTable.Row): (p: Project)
    requires Typed(row)
  {
    Project(row.path, row.name, RowType(row).value, Paths.Exists(fs, Paths.Parse(row.path)))
  }

  /** The rows turned into projects, in order, each checked for existence;
      rows whose path names no project type are dropped. */
  function Shown(fs: Paths.Fs, rows: seq<ProjectsTable.Row>): (r: seq<Project>)
    ensures |r| == |Seqs.Filter(rows, Typed)|
    ensures forall i :: 0 <= i < |r| ==> r[i] == ShownAs(fs, Seqs.Filter(rows, Typed)[i])
    ensures forall p :: p in r ==> exists row :: row in rows && p.path == row.path && p.name == row.name
                                     && RowType(row) == Some(p.projectType)
                                     && p.valid == Paths.Exists(fs, Paths.Parse(row.path))
    decreases |rows|
  {
    if |rows| == 0 then []
    else
      var rest := Shown(fs, rows[1..]);
      Seqs.FilterCons(rows, Typed);
      var r := if Typed(rows[0]) then [ShownAs(fs, rows[0])] + rest else rest;
      ShownFromRows(fs, rows, r);
      r
  }

  /** Projects shown one for one from the typed rows each come from a row. */
  lemma ShownFromRows(fs: Paths.Fs, rows: seq<ProjectsTable.Row>, r: seq<Project>)
    requires |r| == |Seqs.Filter(rows, Typed)|
    requires forall i :: 0 <= i < |r| ==> r[i] == ShownAs(fs, Seqs.Filter(rows, Typed)[i])
    ensures forall p :: p in r ==> exists row :: row in rows && p.path == row.path && p.name == row.name
                                     && RowType(row) == Some(p.projectType)
                                     && p.valid == Paths.Exists(fs, Paths.Parse(row.path))
  {
    var kept := Seqs.Filter(rows, Typed);
    forall p | p in r
      ensures exists row :: row in rows && p.path == row.path && p.name == row.name
                            && RowType(row) == Some(p.projectType)
                            && p.valid == Paths.Exists(fs, Paths.Parse(row.path))
    {
      var i :| 0 <= i < |r| && r[i] == p;
      assert kept[i] in kept;
    }
  }

  /** `get_recent_projects`: at most `limit` projects, each from a row that
      matches the query and names a known project type. */
  function GetRecentProjects(fs: Paths.Fs, t: ProjectsTable.Table, query: Option<string>, limit: nat): (r: seq<Project>)
    ensures |r| <= limit
    ensures forall p :: p in r ==> exists row :: row in t.rows && MatchesQuery(row, query) && p.path == row.path
                                     && p.name == row.name && RowType(row) == Some(p.projectType)
  {
    Shown(fs, RecentRows(t, query, limit))
  }

  /** What `get_recent_projects` lists: the typed rows among the newest
      `limit` matching rows, each shown as its project, newest first. A
      matching typed row is missing only when `limit` matching rows at
      least as new fill the limit (rows of no known type count against it
      too, since the limit is applied in the query). */
  lemma RecentProjectsListing(fs: Paths.Fs, t: ProjectsTable.Table, query: Option<string>, limit: nat)
    ensures var recent := RecentRows(t, query, limit);
      var rows := Seqs.Filter(recent, Typed);
      var shown := GetRecentProjects(fs, t, query, limit);
      && |shown| == |rows|
      && (forall i :: 0 <= i < |rows| ==> shown[i] == ShownAs(fs, rows[i]))
      && (forall i, j :: 0 <= i < j < |rows| ==> ProjectsTable.NewerOrSame(rows[i], rows[j]))
      && (forall row :: row in t.rows && MatchesQuery(row, query) && Typed(row) && row !in rows ==>
            |recent| == limit && forall x :: x in recent ==> ProjectsTable.NewerOrSame(x, row))
  {
    var recent := RecentRows(t, query, limit);
    var rows := Seqs.Filter(recent, Typed);
    RecentInOrder(recent, Typed);
    forall row | row in t.rows && MatchesQuery(row, query) && Typed(row) && row !in rows
      ensures |recent| == limit && forall x :: x in recent ==> ProjectsTable.NewerOrSame(x, row)
    {
      assert row !in recent;
      assert row in multiset(QueryRows(t, query)) - multiset(recent);
      ProjectsTable.LeftOutOnlyAtLimit(QueryRows(t, query), Some(limit), row);
    }
  }

  /** Filtering a newest-first listing keeps it newest first. */
  lemma RecentInOrder(recent: seq<ProjectsTable.Row>, p: ProjectsTable.Row -> bool)
    requires forall i, j :: 0 <= i < j < |recent| ==> ProjectsTable.NewerOrSame(recent[i], recent[j])
    ensures var rows := Seqs.Filter(recent, p);
      forall i, j :: 0 <= i < j < |rows| ==> ProjectsTable.NewerOrSame(rows[i], rows[j])
  {
    Seqs.FilterAt(recent, p);
    var rows := Seqs.Filter(recent, p);
    var idx := Seqs.KeptAt(recent, p);
    forall i, j | 0 <= i < j < |rows| ensures ProjectsTable.NewerOrSame(rows[i], rows[j]) {
      assert idx[i] < idx[j] < |recent|;
    }
  }

  /** A project just saved, with a timestamp later than every other row's,
      heads the recent list when it matches the query. */
  lemma SavedProjectComesFirst(fs: Paths.Fs, t: ProjectsTable.Table, path: string, name: string,
                               projectType: string, now: string, query: Option<string>, limit: nat)
    requires ProjectsTable.Valid(t) && limit > 0
    requires RowType(ProjectsTable.Row(0, path, name, projectType, None, None)).Some?
    requires query.None? || SqlLike.Like(path, SqlLike.ContainsPattern(query.value))
    requires forall row :: row in t.rows && row.path != path && row.lastOpenedAt.Some? ==>
      Sorting.LexLe(row.lastOpenedAt.value, now) && row.lastOpenedAt.value != now
    ensures var shown := GetRecentProjects(fs, SaveProject(t, path, name, projectType, now), query, limit);
      |shown| > 0 && shown[0].path == path && shown[0].name == name
  {
    var t2 := SaveProject(t, path, name, projectType, now);
    var saved := t2.rows[ProjectsTable.IndexOf(t2.rows, path).value];
    assert saved in t2.rows;
    var matching := Seqs.Filter(t2.rows, row => MatchesQuery(row, query));
    assert saved in matching;
    forall other | other in matching && other != saved
      ensures other.lastOpenedAt.None? || (Sorting.LexLe(other.lastOpenedAt.value, now) && other.lastOpenedAt.value != now)
    {
      assert other in t2.rows;
      var k :| 0 <= k < |t2.rows| && t2.rows[k] == other;
      var s :| 0 <= s < |t2.rows| && t2.rows[s] == saved;
      assert other.path != path;
      OtherRowWasThere(t, t2, path, name, projectType, now, other);
    }
    ProjectsTable.NewestFirst(matching, saved, Some(limit));
    assert RowType(saved) == RowType(ProjectsTable.Row(0, path, name, projectType, None, None));
  }

  /** Saving touches only the row for its own path. */
  lemma OtherRowWasThere(t: ProjectsTable.Table, t2: ProjectsTable.Table, path: string, name: string,
                         projectType: string, now: string, other: ProjectsTable.Row)
    requires ProjectsTable.Valid(t) && t2 == SaveProject(t, path, name, projectType, now)
    requires other in t2.rows && other.path != path
    ensures other in t.rows
  {
    match ProjectsTable.IndexOf(t.rows, path)
    case Some(i) =>
      var k :| 0 <= k < |t2.rows| && t2.rows[k] == other;
      assert k != i;
    case None =>
      var k :| 0 <= k < |t2.rows| && t2.rows[k] == other;
      assert k < |t.rows|;
  }

  /** As written, saving a project into an empty table fails, so the recent
      list stays empty whatever was saved. */
  lemma NewProjectNeverListed(fs: Paths.Fs, path: string, name: string, now: string, limit: nat)
    ensures SaveProjectAsWritten(ProjectsTable.Empty(), path, name, now).Err?
    ensures GetRecentProjects(fs, ProjectsTable.Empty(), None, limit) == []
  {
  }
}
