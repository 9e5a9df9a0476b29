/** core/IndexerSQLiteHelper.java: three tables kept in memory instead of
    SQLite. A link names a catalog (by hash); a catalog owns a tree of file
    rows, each row pointing at its parent row, and every catalog's top-level
    rows hang below the one root row. Deleting a row cascades to the rows below
    it, as the file table's foreign key declares. */
module Indexer {
  import opened JavaLang

  const ROOT_FILE_ID: int := 1
  const ROOT_HASH: string := "N/A"

  /** A row of the `file` table; `content` is NULL for directories. */
  datatype FileRow = FileRow(id: int, name: string, parent: int, hash: string, content: Option<string>, isDir: bool)

  /** The `file` table in id order, and the next AUTOINCREMENT id. */
  datatype FileTable = FileTable(rows: seq<FileRow>, nextId: int)

  /** The row onCreate stores before the foreign keys are switched on. */
  function RootRow(): FileRow {
    FileRow(ROOT_FILE_ID, "root", ROOT_FILE_ID, ROOT_HASH, Some("Do not remove me"), false)
  }

  /** The table's uniqueness key is (name, parent_id, catalog_hash). */
  predicate Matches(r: FileRow, name: string, parent: int, hash: string) {
    r.name == name && r.parent == parent && r.hash == hash
  }

  predicate SameKey(a: FileRow, b: FileRow) {
    a.name == b.name && a.parent == b.parent && a.hash == b.hash
  }

  /** The first row with the given key, or |rows| when there is none (the query of replaceFile and findFile). */
  function RowIndex(rows: seq<FileRow>, name: string, parent: int, hash: string): (k: nat)
    ensures k <= |rows|
    ensures k < |rows| ==> Matches(rows[k], name, parent, hash)
    ensures forall i :: 0 <= i < k ==> !Matches(rows[i], name, parent, hash)
  {
    if rows == [] then 0
    else if Matches(rows[0], name, parent, hash) then 0
    else 1 + RowIndex(rows[1..], name, parent, hash)
  }

  /** The first row with the given id, or |rows|. */
  function IdIndex(rows: seq<FileRow>, id: int): (k: nat)
    ensures k <= |rows|
    ensures k < |rows| ==> rows[k].id == id
    ensures forall i :: 0 <= i < k ==> rows[i].id != id
  {
    if rows == [] then 0 else if rows[0].id == id then 0 else 1 + IdIndex(rows[1..], id)
  }

  predicate HasRow(rows: seq<FileRow>, id: int) {
    IdIndex(rows, id) < |rows|
  }

  function HashOf(rows: seq<FileRow>, id: int): Option<string> {
    var k := IdIndex(rows, id);
    if k < |rows| then Some(rows[k].hash) else None
  }

  /** Ids ascend in table order (AUTOINCREMENT). */
  ghost predicate Ascending(rows: seq<FileRow>) {
    forall i, j :: 0 <= i < j < |rows| ==> rows[i].id < rows[j].id
  }

  /** UNIQUE (name, parent_id, catalog_hash). */
  ghost predicate KeysUnique(rows: seq<FileRow>) {
    forall i, j :: 0 <= i < j < |rows| ==> !SameKey(rows[i], rows[j])
  }

  /** The root row is its own parent; any other row has an existing parent with
      a smaller id, whose hash it shares unless that parent is the root. */
  ghost predicate RowLinked(rows: seq<FileRow>, r: FileRow) {
    if r.id == ROOT_FILE_ID then
      r.name == "root" && r.parent == ROOT_FILE_ID && r.hash == ROOT_HASH
    else
      && ROOT_FILE_ID <= r.parent < r.id
      && HashOf(rows, r.parent).Some?
      && (r.parent != ROOT_FILE_ID ==> HashOf(rows, r.parent) == Some(r.hash))
  }

  /** Row `i` is linked; quantified over `i` so that the solver only follows a
      parent link when a proof names the row. */
  ghost predicate Linked(rows: seq<FileRow>, i: int) {
    0 <= i < |rows| && RowLinked(rows, rows[i])
  }

  /** What the schema and the insert order guarantee of the file table. */
  ghost predicate TableValid(t: FileTable) {
    && ROOT_FILE_ID < t.nextId
    && Ascending(t.rows)
    && (forall i :: 0 <= i < |t.rows| ==> ROOT_FILE_ID <= t.rows[i].id < t.nextId)
    && KeysUnique(t.rows)
    && (forall i :: 0 <= i < |t.rows| ==> Linked(t.rows, i))
  }

  // ------------------------------------------------------------------ paths

  /** ltrim(path.trim(), '/').split("/", 2): the first component and the rest. */
  function Components(path: string): (c: seq<string>)
    ensures 1 <= |c| <= 2
    ensures |c| == 2 ==> |c[1]| < |path|
    ensures '/' !in c[0]
  {
    Split2(LTrimChar(Trim(path), '/'), '/')
  }

  /** The path goes on below its first component. */
  predicate HasRest(c: seq<string>)
    requires 1 <= |c|
  {
    |c| > 1 && Trim(c[1]) != ""
  }

  /** No path component carries surrounding whitespace. */
  predicate CleanPath(path: string)
    decreases |path|
  {
    var c := Components(path);
    Trim(c[0]) == c[0] && (HasRest(c) ==> CleanPath(Trim(c[1])))
  }

  // ------------------------------------------------------------------ replaceFile

  /** A row id produced by one step of replaceFile, with the table after it. */
  datatype Placed = Placed(table: FileTable, id: int)

  /** One upsert: an existing row with the key is updated in place (a directory
      keeps its content), otherwise a row is inserted, which the foreign key
      refuses (id -1) when the parent does not exist. */
  function Put(t: FileTable, hash: string, name: string, dir: bool, contents: string, parent: int): Placed {
    var k := RowIndex(t.rows, name, parent, hash);
    if k < |t.rows| then
      var row := t.rows[k];
      Placed(FileTable(t.rows[k := row.(isDir := dir, content := if dir then row.content else Some(contents))], t.nextId), row.id)
    else if HasRow(t.rows, parent) then
      Placed(FileTable(t.rows + [FileRow(t.nextId, name, parent, hash, if dir then None else Some(contents), dir)], t.nextId + 1), t.nextId)
    else
      Placed(t, -1)
  }

  /** replaceFile(hash, name, contents, parent): one upsert per path component. */
  function Upsert(t: FileTable, hash: string, name: string, contents: string, parent: int): FileTable
    decreases |name|
  {
    var c := Components(name);
    var dir := HasRest(c);
    var placed := Put(t, hash, c[0], dir, contents, parent);
    if dir then Upsert(placed.table, hash, Trim(c[1]), contents, placed.id) else placed.table
  }

  /** The parent a row is stored under carries the row's hash, unless it is the root. */
  predicate ParentOk(rows: seq<FileRow>, parent: int, hash: string) {
    parent == ROOT_FILE_ID || HashOf(rows, parent).None? || HashOf(rows, parent) == Some(hash)
  }

  /** `b` keeps every row of `a` at its place with its id and key. */
  predicate Preserved(a: seq<FileRow>, b: seq<FileRow>) {
    |a| <= |b| && forall i :: 0 <= i < |a| ==> b[i].id == a[i].id && SameKey(b[i], a[i])
  }

  /** With ascending ids, the row found by id is the row at its own index. */
  lemma IdIndexOf(rows: seq<FileRow>, k: nat)
    requires Ascending(rows)
    requires k < |rows|
    ensures IdIndex(rows, rows[k].id) == k
  {
  }

  /** Tables with the same ids in the same places find ids at the same places. */
  lemma IdIndexSameIds(a: seq<FileRow>, b: seq<FileRow>, x: int)
    requires |a| == |b| && forall i :: 0 <= i < |a| ==> a[i].id == b[i].id
    ensures IdIndex(a, x) == IdIndex(b, x)
  {
    assert forall i :: 0 <= i < |a| ==> (a[i].id == x <==> b[i].id == x);
  }

  /** An id already present is found at the same place after an append. */
  lemma IdIndexAppend(rows: seq<FileRow>, r: FileRow, x: int)
    requires IdIndex(rows, x) < |rows|
    ensures IdIndex(rows + [r], x) == IdIndex(rows, x)
  {
    var m := IdIndex(rows, x);
    assert (rows + [r])[m].id == x;
    assert forall i :: 0 <= i < m ==> (rows + [r])[i] == rows[i];
  }

  /** A key found among preserved rows is found at the same place. */
  lemma RowIndexPreserved(a: seq<FileRow>, b: seq<FileRow>, name: string, parent: int, hash: string)
    requires Preserved(a, b) && RowIndex(a, name, parent, hash) < |a|
    ensures RowIndex(b, name, parent, hash) == RowIndex(a, name, parent, hash)
  {
    var k := RowIndex(a, name, parent, hash);
    assert Matches(b[k], name, parent, hash);
    forall i | 0 <= i < k ensures !Matches(b[i], name, parent, hash) {
      assert !Matches(a[i], name, parent, hash);
    }
  }

  /** Rewriting rows without touching ids and keys keeps the table valid. */
  lemma SameShapeValid(t: FileTable, u: seq<FileRow>)
    requires TableValid(t) && |u| == |t.rows| && Preserved(t.rows, u)
    ensures TableValid(FileTable(u, t.nextId))
  {
    forall x ensures HashOf(u, x) == HashOf(t.rows, x) {
      IdIndexSameIds(t.rows, u, x);
    }
    forall i | 0 <= i < |u| ensures Linked(u, i) {
      assert Linked(t.rows, i);
    }
  }

  /** Appending a row with the next id, a new key and an existing parent of the
      right hash keeps the table valid. */
  lemma AppendValid(t: FileTable, r: FileRow)
    requires TableValid(t) && r.id == t.nextId
    requires RowIndex(t.rows, r.name, r.parent, r.hash) == |t.rows|
    requires HasRow(t.rows, r.parent) && ParentOk(t.rows, r.parent, r.hash)
    ensures TableValid(FileTable(t.rows + [r], t.nextId + 1))
  {
    var rows := t.rows;
    var u := rows + [r];
    forall i | 0 <= i < |rows| ensures Linked(u, i) {
      assert u[i] == rows[i];
      assert Linked(rows, i);
      if rows[i].id != ROOT_FILE_ID {
        IdIndexAppend(rows, r, rows[i].parent);
      }
    }
    IdIndexAppend(rows, r, r.parent);
    assert rows[IdIndex(rows, r.parent)].id == r.parent;
    assert Linked(u, |rows|);
    forall i | 0 <= i < |rows| ensures !SameKey(u[i], r) {
      assert !Matches(rows[i], r.name, r.parent, r.hash);
    }
  }

  /** The row a Put yields: found by its id and by its key at the same place. */
  ghost predicate PlacedRow(p: Placed, name: string, parent: int, hash: string, dir: bool, contents: string) {
    var rows := p.table.rows;
    var j := IdIndex(rows, p.id);
    && ROOT_FILE_ID <= p.id && j < |rows|
    && RowIndex(rows, name, parent, hash) == j
    && rows[j].isDir == dir
    && (!dir ==> rows[j].content == Some(contents))
  }

  /** What one upsert promises: the table stays valid and every earlier row
      stays in place; it fails (id -1, nothing written) only when neither the
      row nor its parent exists, and otherwise yields the row with the key. */
  ghost predicate PutOutcome(t: FileTable, p: Placed, name: string, parent: int, hash: string, dir: bool, contents: string) {
    && TableValid(p.table)
    && Preserved(t.rows, p.table.rows)
    && (p.id == -1 ==> p.table == t && !HasRow(t.rows, parent) && RowIndex(t.rows, name, parent, hash) == |t.rows|)
    && (p.id != -1 ==> PlacedRow(p, name, parent, hash, dir, contents))
  }

  lemma PutUpdates(t: FileTable, hash: string, name: string, dir: bool, contents: string, parent: int)
    requires TableValid(t) && RowIndex(t.rows, name, parent, hash) < |t.rows|
    ensures PutOutcome(t, Put(t, hash, name, dir, contents, parent), name, parent, hash, dir, contents)
  {
    var k := RowIndex(t.rows, name, parent, hash);
    var p := Put(t, hash, name, dir, contents, parent);
    SameShapeValid(t, p.table.rows);
    IdIndexOf(p.table.rows, k);
    RowIndexPreserved(t.rows, p.table.rows, name, parent, hash);
  }

  lemma PutInserts(t: FileTable, hash: string, name: string, dir: bool, contents: string, parent: int)
    requires TableValid(t) && ParentOk(t.rows, parent, hash)
    requires RowIndex(t.rows, name, parent, hash) == |t.rows| && HasRow(t.rows, parent)
    ensures PutOutcome(t, Put(t, hash, name, dir, contents, parent), name, parent, hash, dir, contents)
  {
    var rows := t.rows;
    var p := Put(t, hash, name, dir, contents, parent);
    var r := FileRow(t.nextId, name, parent, hash, if dir then None else Some(contents), dir);
    assert p.table.rows == rows + [r];
    AppendValid(t, r);
    IdIndexOf(p.table.rows, |rows|);
  }

  lemma PutValid(t: FileTable, hash: string, name: string, dir: bool, contents: string, parent: int)
    requires TableValid(t) && ParentOk(t.rows, parent, hash)
    ensures PutOutcome(t, Put(t, hash, name, dir, contents, parent), name, parent, hash, dir, contents)
  {
    if RowIndex(t.rows, name, parent, hash) < |t.rows| {
      PutUpdates(t, hash, name, dir, contents, parent);
    } else if HasRow(t.rows, parent) {
      PutInserts(t, hash, name, dir, contents, parent);
    }
  }

  /** An upsert below an existing parent always yields its row. */
  lemma PutPlaces(t: FileTable, hash: string, name: string, dir: bool, contents: string, parent: int)
    requires TableValid(t) && ParentOk(t.rows, parent, hash) && HasRow(t.rows, parent)
    ensures PlacedRow(Put(t, hash, name, dir, contents, parent), name, parent, hash, dir, contents)
  {
    PutValid(t, hash, name, dir, contents, parent);
  }

  /** replaceFile keeps the table valid and every earlier row in place. */
  lemma {:induction false} UpsertValid(t: FileTable, hash: string, name: string, contents: string, parent: int)
    requires TableValid(t) && ParentOk(t.rows, parent, hash)
    ensures TableValid(Upsert(t, hash, name, contents, parent))
    ensures Preserved(t.rows, Upsert(t, hash, name, contents, parent).rows)
    decreases |name|
  {
    var c := Components(name);
    var dir := HasRest(c);
    PutValid(t, hash, c[0], dir, contents, parent);
    var p := Put(t, hash, c[0], dir, contents, parent);
    if dir {
      ParentOfNext(p, c[0], parent, hash, dir, contents);
      var u := Upsert(p.table, hash, Trim(c[1]), contents, p.id);
      UpsertValid(p.table, hash, Trim(c[1]), contents, p.id);
      PreservedTrans(t.rows, p.table.rows, u.rows);
      assert Upsert(t, hash, name, contents, parent) == u;
    } else {
      assert Upsert(t, hash, name, contents, parent) == p.table;
    }
  }

  lemma PreservedTrans(a: seq<FileRow>, b: seq<FileRow>, c: seq<FileRow>)
    requires Preserved(a, b) && Preserved(b, c)
    ensures Preserved(a, c)
  {
  }

  /** The row a Put yields carries the hash, so the next component may hang below it. */
  lemma ParentOfNext(p: Placed, name: string, parent: int, hash: string, dir: bool, contents: string)
    requires TableValid(p.table)
    requires p.id == -1 || PlacedRow(p, name, parent, hash, dir, contents)
    ensures ParentOk(p.table.rows, p.id, hash)
  {
    assert forall i :: 0 <= i < |p.table.rows| ==> p.table.rows[i].id != -1;
  }

  // ------------------------------------------------------------------ findFile, readFile

  /** findFile: the id of the row at the end of the path, 0 when a component is missing. */
  function FindFile(rows: seq<FileRow>, hash: string, path: string, parent: int): int
    decreases |path|
  {
    var c := Components(path);
    var k := RowIndex(rows, Trim(c[0]), parent, hash);
    if k == |rows| then 0
    else if HasRest(c) then FindFile(rows, hash, Trim(c[1]), rows[k].id)
    else rows[k].id
  }

  /** readFile: the content of a file row, null for directories and missing paths. */
  function ReadFile(rows: seq<FileRow>, hash: string, path: string): Option<string> {
    var id := FindFile(rows, hash, path, ROOT_FILE_ID);
    if id > 0 then
      var k := IdIndex(rows, id);
      if k < |rows| && !rows[k].isDir then rows[k].content else None
    else None
  }

  /** findFile answers 0 or the id of an existing row. */
  lemma {:induction false} FindFileExists(t: FileTable, hash: string, path: string, parent: int)
    requires TableValid(t)
    ensures var id := FindFile(t.rows, hash, path, parent);
      id == 0 || (id >= ROOT_FILE_ID && HasRow(t.rows, id))
    decreases |path|
  {
    FindFileIn(t.rows, hash, path, parent);
  }

  lemma {:induction false} FindFileIn(rows: seq<FileRow>, hash: string, path: string, parent: int)
    requires Ascending(rows) && forall i :: 0 <= i < |rows| ==> ROOT_FILE_ID <= rows[i].id
    ensures var id := FindFile(rows, hash, path, parent);
      id == 0 || (id >= ROOT_FILE_ID && HasRow(rows, id))
    decreases |path|
  {
    var c := Components(path);
    var k := RowIndex(rows, Trim(c[0]), parent, hash);
    FindFileUnfolds(rows, hash, path, parent);
    if k < |rows| && HasRest(c) {
      FindFileIn(rows, hash, Trim(c[1]), rows[k].id);
    } else if k < |rows| {
      IdIndexOf(rows, k);
    }
  }

  /** One step of findFile: a missing component gives 0, the last one its row's id. */
  lemma FindFileUnfolds(rows: seq<FileRow>, hash: string, path: string, parent: int)
    ensures var c := Components(path); var k := RowIndex(rows, Trim(c[0]), parent, hash);
      && (k == |rows| ==> FindFile(rows, hash, path, parent) == 0)
      && (k < |rows| && !HasRest(c) ==> FindFile(rows, hash, path, parent) == rows[k].id)
      && (k < |rows| && HasRest(c) ==> FindFile(rows, hash, path, parent) == FindFile(rows, hash, Trim(c[1]), rows[k].id))
  {
  }

  /** The row with this id is a file holding the contents. */
  ghost predicate HoldsFile(rows: seq<FileRow>, id: int, contents: string) {
    var k := IdIndex(rows, id);
    id >= ROOT_FILE_ID && k < |rows| && !rows[k].isDir && rows[k].content == Some(contents)
  }

  /** One step of replaceFile, as its recursion reads. */
  lemma UpsertStep(t: FileTable, hash: string, path: string, contents: string, parent: int)
    ensures var c := Components(path);
      !HasRest(c) ==> Upsert(t, hash, path, contents, parent) == Put(t, hash, c[0], false, contents, parent).table
    ensures var c := Components(path); var p := Put(t, hash, c[0], true, contents, parent);
      HasRest(c) ==> Upsert(t, hash, path, contents, parent) == Upsert(p.table, hash, Trim(c[1]), contents, p.id)
  {
  }

  /** One step of findFile on a clean path whose first component exists. */
  lemma FindStep(rows: seq<FileRow>, hash: string, path: string, parent: int)
    requires CleanPath(path)
    requires RowIndex(rows, Components(path)[0], parent, hash) < |rows|
    ensures var c := Components(path); var k := RowIndex(rows, c[0], parent, hash);
      FindFile(rows, hash, path, parent) == if HasRest(c) then FindFile(rows, hash, Trim(c[1]), rows[k].id) else rows[k].id
  {
  }

  /** After replaceFile below an existing parent, findFile reaches a file row
      holding the contents, provided no component has surrounding whitespace. */
  lemma {:induction false} UpsertThenFind(t: FileTable, hash: string, path: string, contents: string, parent: int)
    requires TableValid(t) && HasRow(t.rows, parent) && ParentOk(t.rows, parent, hash) && CleanPath(path)
    ensures HoldsFile(Upsert(t, hash, path, contents, parent).rows,
                      FindFile(Upsert(t, hash, path, contents, parent).rows, hash, path, parent), contents)
    decreases |path|, 1
  {
    var c := Components(path);
    if HasRest(c) {
      FindBelowDirectory(t, hash, path, contents, parent);
    } else {
      FindAtFile(t, hash, path, contents, parent);
    }
  }

  /** The step of UpsertThenFind for a path that ends at its first component. */
  lemma FindAtFile(t: FileTable, hash: string, path: string, contents: string, parent: int)
    requires TableValid(t) && HasRow(t.rows, parent) && ParentOk(t.rows, parent, hash) && CleanPath(path)
    requires !HasRest(Components(path))
    ensures HoldsFile(Upsert(t, hash, path, contents, parent).rows,
                      FindFile(Upsert(t, hash, path, contents, parent).rows, hash, path, parent), contents)
  {
    var name := Components(path)[0];
    UpsertStep(t, hash, path, contents, parent);
    PutPlaces(t, hash, name, false, contents, parent);
    var p := Put(t, hash, name, false, contents, parent);
    FindStep(p.table.rows, hash, path, parent);
  }

  /** The step of UpsertThenFind for a path that goes on below its first component. */
  lemma {:induction false} FindBelowDirectory(t: FileTable, hash: string, path: string, contents: string, parent: int)
    requires TableValid(t) && HasRow(t.rows, parent) && ParentOk(t.rows, parent, hash) && CleanPath(path)
    requires HasRest(Components(path))
    ensures HoldsFile(Upsert(t, hash, path, contents, parent).rows,
                      FindFile(Upsert(t, hash, path, contents, parent).rows, hash, path, parent), contents)
    decreases |path|, 0
  {
    var c := Components(path);
    var rest := Trim(c[1]);
    UpsertStep(t, hash, path, contents, parent);
    DirectoryKept(t, hash, c[0], rest, contents, parent);
    var p := Put(t, hash, c[0], true, contents, parent);
    var u := Upsert(p.table, hash, rest, contents, p.id);
    UpsertThenFind(p.table, hash, rest, contents, p.id);
    FindStep(u.rows, hash, path, parent);
  }

  /** The directory row an upsert yields is still found by its key after the
      rest of the path is upserted below it. */
  lemma DirectoryKept(t: FileTable, hash: string, name: string, rest: string, contents: string, parent: int)
    requires TableValid(t) && HasRow(t.rows, parent) && ParentOk(t.rows, parent, hash)
    ensures var p := Put(t, hash, name, true, contents, parent);
      TableValid(p.table) && HasRow(p.table.rows, p.id) && ParentOk(p.table.rows, p.id, hash)
    ensures var p := Put(t, hash, name, true, contents, parent);
      var u := Upsert(p.table, hash, rest, contents, p.id);
      RowIndex(u.rows, name, parent, hash) < |u.rows| && u.rows[RowIndex(u.rows, name, parent, hash)].id == p.id
  {
    PutValid(t, hash, name, true, contents, parent);
    var p := Put(t, hash, name, true, contents, parent);
    var u := Upsert(p.table, hash, rest, contents, p.id);
    ParentOfNext(p, name, parent, hash, true, contents);
    UpsertValid(p.table, hash, rest, contents, p.id);
    RowIndexPreserved(p.table.rows, u.rows, name, parent, hash);
  }

  /** Round trip: readFile after replaceFile gives back the contents. */
  lemma ReplaceThenRead(t: FileTable, hash: string, path: string, contents: string)
    requires TableValid(t) && HasRow(t.rows, ROOT_FILE_ID) && CleanPath(path)
    ensures ReadFile(Upsert(t, hash, path, contents, ROOT_FILE_ID).rows, hash, path) == Some(contents)
  {
    UpsertThenFind(t, hash, path, contents, ROOT_FILE_ID);
  }

  // ------------------------------------------------------------------ cascading delete

  /** The row with this id is deleted, or lies below a deleted row. */
  predicate Doomed(rows: seq<FileRow>, gone: set<int>, id: int)
    decreases id
  {
    var k := IdIndex(rows, id);
    k < |rows| && (id in gone || (ROOT_FILE_ID <= rows[k].parent < id && Doomed(rows, gone, rows[k].parent)))
  }

  function Survivors(all: seq<FileRow>, part: seq<FileRow>, gone: set<int>): seq<FileRow> {
    if part == [] then []
    else (if Doomed(all, gone, part[0].id) then [] else [part[0]]) + Survivors(all, part[1..], gone)
  }

  /** The file table after deleting the rows with ids in `gone` and, through
      ON DELETE CASCADE, every row below them. */
  function Cascade(rows: seq<FileRow>, gone: set<int>): seq<FileRow> {
    Survivors(rows, rows, gone)
  }

  lemma {:induction false} SurvivorsMembers(all: seq<FileRow>, part: seq<FileRow>, gone: set<int>)
    ensures forall r :: r in Survivors(all, part, gone) <==> r in part && !Doomed(all, gone, r.id)
  {
    if part != [] {
      SurvivorsMembers(all, part[1..], gone);
      assert part == [part[0]] + part[1..];
      var head := if Doomed(all, gone, part[0].id) then [] else [part[0]];
      assert Survivors(all, part, gone) == head + Survivors(all, part[1..], gone);
      forall r ensures r in Survivors(all, part, gone) <==> r in part && !Doomed(all, gone, r.id) {
        assert r in part <==> r == part[0] || r in part[1..];
      }
    }
  }

  /** Removing rows keeps ascending ids and unique keys. */
  lemma {:induction false} SurvivorsOrdered(all: seq<FileRow>, part: seq<FileRow>, gone: set<int>)
    requires Ascending(part) && KeysUnique(part)
    ensures Ascending(Survivors(all, part, gone)) && KeysUnique(Survivors(all, part, gone))
  {
    if part != [] {
      var rest := part[1..];
      SurvivorsOrdered(all, rest, gone);
      SurvivorsMembers(all, rest, gone);
      var tail := Survivors(all, rest, gone);
      if Doomed(all, gone, part[0].id) {
        assert Survivors(all, part, gone) == tail;
      } else {
        forall j | 0 <= j < |tail| ensures part[0].id < tail[j].id && !SameKey(part[0], tail[j]) {
          assert tail[j] in rest;
          var m :| 0 <= m < |rest| && rest[m] == tail[j];
          assert part[m + 1] == tail[j];
        }
        assert Survivors(all, part, gone) == [part[0]] + tail;
        ConsOrdered(part[0], tail);
      }
    }
  }

  /** A row placed before rows with larger ids and other keys keeps the order. */
  lemma ConsOrdered(x: FileRow, tail: seq<FileRow>)
    requires Ascending(tail) && KeysUnique(tail)
    requires forall j :: 0 <= j < |tail| ==> x.id < tail[j].id && !SameKey(x, tail[j])
    ensures Ascending([x] + tail) && KeysUnique([x] + tail)
  {
    var s := [x] + tail;
    assert forall j :: 1 <= j < |s| ==> s[j] == tail[j - 1];
  }

  /** In a table with ascending ids, a row is the one its id finds. */
  lemma RowById(rows: seq<FileRow>, r: FileRow)
    requires Ascending(rows)
    requires r in rows
    ensures IdIndex(rows, r.id) < |rows| && rows[IdIndex(rows, r.id)] == r
  {
    var k :| 0 <= k < |rows| && rows[k] == r;
    IdIndexOf(rows, k);
  }

  /** A surviving row still finds its parent: the parent of a row that is not
      deleted is not deleted either. */
  lemma SurvivorLinked(rows: seq<FileRow>, gone: set<int>, r: FileRow)
    requires Ascending(rows) && Ascending(Cascade(rows, gone))
    requires r in rows && RowLinked(rows, r) && !Doomed(rows, gone, r.id)
    ensures RowLinked(Cascade(rows, gone), r)
  {
    var s := Cascade(rows, gone);
    SurvivorsMembers(rows, rows, gone);
    if r.id != ROOT_FILE_ID {
      RowById(rows, r);
      var parentRow := rows[IdIndex(rows, r.parent)];
      RowById(rows, parentRow);
      assert parentRow in s;
      RowById(s, parentRow);
    }
  }

  /** Cascading deletion keeps the table valid: no surviving row is left
      without its parent. */
  lemma CascadeValid(t: FileTable, gone: set<int>)
    requires TableValid(t)
    ensures TableValid(FileTable(Cascade(t.rows, gone), t.nextId))
  {
    var rows := t.rows;
    var s := Cascade(rows, gone);
    SurvivorsMembers(rows, rows, gone);
    SurvivorsOrdered(rows, rows, gone);
    forall i | 0 <= i < |s| ensures Linked(s, i) && ROOT_FILE_ID <= s[i].id < t.nextId {
      assert s[i] in rows;
      var k :| 0 <= k < |rows| && rows[k] == s[i];
      assert Linked(rows, k);
      SurvivorLinked(rows, gone, s[i]);
    }
  }

  /** The ids of the rows that carry `hash`. */
  function HashIds(rows: seq<FileRow>, hash: string): set<int> {
    set i | 0 <= i < |rows| && rows[i].hash == hash :: rows[i].id
  }

  /** Deleting the rows of catalog `h` (other than the root's) reaches exactly
      the rows that carry `h`. */
  lemma {:induction false} DoomedIsHash(t: FileTable, h: string, k: nat)
    requires TableValid(t) && h != ROOT_HASH && k < |t.rows|
    ensures Doomed(t.rows, HashIds(t.rows, h), t.rows[k].id) <==> t.rows[k].hash == h
    decreases t.rows[k].id
  {
    var rows := t.rows;
    var gone := HashIds(rows, h);
    IdIndexOf(rows, k);
    assert Linked(rows, k);
    if rows[k].hash != h {
      if rows[k].id != ROOT_FILE_ID {
        var pk := IdIndex(rows, rows[k].parent);
        assert Linked(rows, pk);
        DoomedIsHash(t, h, pk);
      }
    }
  }

  /** deleteCatalog on a catalog other than the root's removes exactly its rows. */
  lemma DeleteCatalogSpares(t: FileTable, h: string)
    requires TableValid(t) && h != ROOT_HASH
    ensures forall r :: r in Cascade(t.rows, HashIds(t.rows, h)) <==> r in t.rows && r.hash != h
  {
    SurvivorsMembers(t.rows, t.rows, HashIds(t.rows, h));
    forall r | r in t.rows ensures Doomed(t.rows, HashIds(t.rows, h), r.id) <==> r.hash == h {
      var k :| 0 <= k < |t.rows| && t.rows[k] == r;
      DoomedIsHash(t, h, k);
    }
  }

  /** deleteFile removes the row found and everything below it, and nothing else. */
  lemma DeleteFileCascade(t: FileTable, id: int)
    requires TableValid(t) && HasRow(t.rows, id)
    ensures forall r :: r in Cascade(t.rows, {id}) ==> r.id != id
    ensures forall r :: r in t.rows && r.parent == id && r.id != ROOT_FILE_ID ==> r !in Cascade(t.rows, {id})
    ensures forall r :: r in t.rows && r.id < id ==> r in Cascade(t.rows, {id})
  {
    SurvivorsMembers(t.rows, t.rows, {id});
    forall r | r in t.rows && r.parent == id && r.id != ROOT_FILE_ID ensures Doomed(t.rows, {id}, r.id) {
      RowById(t.rows, r);
      assert Linked(t.rows, IdIndex(t.rows, r.id));
    }
    forall r | r in t.rows && r.id < id ensures !Doomed(t.rows, {id}, r.id) {
      BelowIsLarger(t, id, r.id);
    }
  }

  /** Only rows with larger ids lie below a row. */
  lemma {:induction false} BelowIsLarger(t: FileTable, id: int, x: int)
    requires TableValid(t) && x < id
    ensures !Doomed(t.rows, {id}, x)
    decreases x
  {
    var k := IdIndex(t.rows, x);
    if k < |t.rows| && ROOT_FILE_ID <= t.rows[k].parent < x {
      BelowIsLarger(t, id, t.rows[k].parent);
    }
  }

  // ------------------------------------------------------------------ links

  /** readLink: the hash the link names, null when there is no such link. */
  function ReadLink(links: map<string, string>, linkPath: string): (r: Option<string>)
    ensures r.Some? <==> linkPath in links
    ensures r.Some? ==> r.value == links[linkPath]
  {
    if linkPath in links then Some(links[linkPath]) else None
  }

  /** The links naming a catalog. */
  function LinksTo(links: map<string, string>, hash: string): set<string> {
    set p | p in links && links[p] == hash
  }

  /** countCatalogLinks. */
  function CountCatalogLinks(links: map<string, string>, hash: string): (n: nat)
    ensures n == |LinksTo(links, hash)|
    ensures n == 0 <==> forall p :: p in links ==> links[p] != hash
  {
    assert forall p :: p in links && links[p] == hash ==> p in LinksTo(links, hash);
    |LinksTo(links, hash)|
  }

  /** After replaceLink(h, p) the link reads h and every other link reads as before. */
  lemma ReplaceLinkReads(links: map<string, string>, h: string, p: string)
    ensures ReadLink(links[p := h], p) == Some(h)
    ensures forall q :: q != p ==> ReadLink(links[p := h], q) == ReadLink(links, q)
    ensures ReadLink(links, p) == Some(h) ==> links[p := h] == links
  {
  }

  /** Removing one link to a catalog lowers its count by one. */
  lemma RemoveLinkCount(links: map<string, string>, p: string)
    requires p in links
    ensures CountCatalogLinks(links - {p}, links[p]) + 1 == CountCatalogLinks(links, links[p])
  {
    var h := links[p];
    assert LinksTo(links - {p}, h) == LinksTo(links, h) - {p};
  }

  // ------------------------------------------------------------------ listDir

  /** Lexicographic order of strings by code point: SQLite's BINARY collation on UTF-8. */
  predicate LessEq(a: string, b: string) {
    a == [] || (b != [] && (a[0] < b[0] || (a[0] == b[0] && LessEq(a[1..], b[1..]))))
  }

  lemma {:induction false} LessEqTotal(a: string, b: string)
    ensures LessEq(a, b) || LessEq(b, a)
  {
    if a != [] && b != [] && a[0] == b[0] {
      LessEqTotal(a[1..], b[1..]);
    }
  }

  predicate Sorted(s: seq<string>) {
    forall i :: 0 <= i < |s| - 1 ==> LessEq(s[i], s[i + 1])
  }

  function Insert(x: string, s: seq<string>): (r: seq<string>)
    requires Sorted(s)
    ensures Sorted(r) && multiset(r) == multiset(s) + multiset{x}
    ensures |r| == |s| + 1 && (r[0] == x || (s != [] && r[0] == s[0]))
  {
    if s == [] || LessEq(x, s[0]) then [x] + s
    else
      LessEqTotal(x, s[0]);
      var rest := Insert(x, s[1..]);
      assert s == [s[0]] + s[1..];
      [s[0]] + rest
  }

  /** The rows below `id`, ordered by name (the query's ORDER BY name). */
  function SortNames(names: seq<string>): (r: seq<string>)
    ensures Sorted(r) && multiset(r) == multiset(names)
  {
    if names == [] then []
    else
      assert names == names[..|names| - 1] + [names[|names| - 1]];
      Insert(names[|names| - 1], SortNames(names[..|names| - 1]))
  }

  /** The names of the rows whose parent_id is `id`, in table order. */
  function ChildNames(rows: seq<FileRow>, id: int): seq<string> {
    if rows == [] then []
    else ChildNames(rows[..|rows| - 1], id) + (if rows[|rows| - 1].parent == id then [rows[|rows| - 1].name] else [])
  }

  lemma {:induction false} ChildNamesMembers(rows: seq<FileRow>, id: int)
    ensures forall n :: n in ChildNames(rows, id) <==> exists i :: 0 <= i < |rows| && rows[i].parent == id && rows[i].name == n
  {
    if rows != [] {
      var front := rows[..|rows| - 1];
      ChildNamesMembers(front, id);
      forall n | n in ChildNames(rows, id) ensures exists i :: 0 <= i < |rows| && rows[i].parent == id && rows[i].name == n {
        if n in ChildNames(front, id) {
          var i :| 0 <= i < |front| && front[i].parent == id && front[i].name == n;
          assert rows[i] == front[i];
        } else {
          assert rows[|rows| - 1].parent == id && rows[|rows| - 1].name == n;
        }
      }
      forall n | exists i :: 0 <= i < |rows| && rows[i].parent == id && rows[i].name == n ensures n in ChildNames(rows, id) {
        var i :| 0 <= i < |rows| && rows[i].parent == id && rows[i].name == n;
        if i < |front| {
          assert front[i] == rows[i];
        }
      }
    }
  }

  /** Index of the last `c` in `s`, or -1. */
  function LastIndexOf(s: string, c: char): (r: int)
    ensures -1 <= r < |s|
    ensures r >= 0 ==> s[r] == c
    ensures forall i :: r < i < |s| ==> s[i] != c
  {
    if s == [] then -1 else if s[|s| - 1] == c then |s| - 1 else LastIndexOf(s[..|s| - 1], c)
  }

  /** FilenameUtils.getExtension: the text after the last dot, empty when
      there is no dot or a separator follows the last one. */
  function Extension(name: string): (e: string)
    ensures e != "" ==> |e| < |name| && e == name[|name| - |e|..] && name[|name| - |e| - 1] == '.'
    ensures '.' !in e && '/' !in e && '\\' !in e
    ensures forall k :: DotWithoutSeparatorAfter(name, k) ==> e == name[k + 1..]
  {
    var dot := LastIndexOf(name, '.');
    var sep := if LastIndexOf(name, '/') > LastIndexOf(name, '\\') then LastIndexOf(name, '/') else LastIndexOf(name, '\\');
    if dot == -1 || sep > dot then "" else name[dot + 1..]
  }

  /** `name[k]` is a dot with neither another dot nor a path separator after it. */
  predicate DotWithoutSeparatorAfter(name: string, k: int) {
    && 0 <= k < |name|
    && name[k] == '.'
    && (forall j :: k < j < |name| ==> name[j] != '.' && name[j] != '/' && name[j] != '\\')
  }

  /** The names whose extension is not filtered out, order kept. */
  function KeepExt(names: seq<string>, filters: seq<string>): seq<string> {
    if names == [] then []
    else
      var last := names[|names| - 1];
      KeepExt(names[..|names| - 1], filters) + (if Extension(last) in filters then [] else [last])
  }

  /** Dropping names keeps them sorted. */
  lemma {:induction false} KeepExtSorted(names: seq<string>, filters: seq<string>)
    requires Sorted(names)
    ensures Sorted(KeepExt(names, filters))
    ensures KeepExt(names, filters) != [] ==> LessEq(Last(KeepExt(names, filters)), Last(names))
  {
    if names != [] {
      var front := names[..|names| - 1];
      var last := Last(names);
      SortedFront(names);
      KeepExtSorted(front, filters);
      var k := KeepExt(front, filters);
      if k != [] {
        LessEqTrans(Last(k), Last(front), last);
      }
      KeepExtLast(names, filters);
      if KeepExt(names, filters) != k {
        SortedSnoc(k, last);
      }
      LessEqRefl(last);
    }
  }

  /** One step of KeepExt: the last name is either dropped or appended. */
  lemma KeepExtLast(names: seq<string>, filters: seq<string>)
    requires names != []
    ensures var k := KeepExt(names[..|names| - 1], filters);
      KeepExt(names, filters) == k || KeepExt(names, filters) == k + [Last(names)]
  {
  }

  /** KeepExt keeps exactly the names whose extension is not filtered. */
  lemma {:induction false} KeepExtMembers(names: seq<string>, filters: seq<string>)
    ensures forall n :: n in KeepExt(names, filters) <==> n in names && Extension(n) !in filters
  {
    if names != [] {
      var front := names[..|names| - 1];
      KeepExtMembers(front, filters);
      assert names == front + [Last(names)];
    }
  }

  function Last(s: seq<string>): string
    requires s != []
  {
    s[|s| - 1]
  }

  lemma SortedFront(s: seq<string>)
    requires Sorted(s) && s != []
    ensures Sorted(s[..|s| - 1])
    ensures |s| > 1 ==> LessEq(Last(s[..|s| - 1]), Last(s))
  {
    if |s| > 1 {
      assert Last(s[..|s| - 1]) == s[|s| - 2];
    }
  }

  lemma SortedSnoc(s: seq<string>, x: string)
    requires Sorted(s) && (s != [] ==> LessEq(Last(s), x))
    ensures Sorted(s + [x])
  {
    var u := s + [x];
    forall i | 0 <= i < |u| - 1 ensures LessEq(u[i], u[i + 1]) {
      if i < |s| - 1 {
        assert u[i] == s[i] && u[i + 1] == s[i + 1];
      }
    }
  }

  lemma {:induction false} LessEqTrans(a: string, b: string, c: string)
    requires LessEq(a, b) && LessEq(b, c)
    ensures LessEq(a, c)
  {
    if a != [] && b != [] && c != [] && a[0] == b[0] && b[0] == c[0] {
      LessEqTrans(a[1..], b[1..], c[1..]);
    }
  }

  lemma {:induction false} LessEqRefl(a: string)
    ensures LessEq(a, a)
  {
    if a != [] {
      LessEqRefl(a[1..]);
    }
  }

  /** What listDir returns: the children's names in ascending order, their
      extensions not filtered; nothing for a path that is not found. */
  lemma ListDirResult(rows: seq<FileRow>, id: int, filters: seq<string>)
    ensures Sorted(KeepExt(SortNames(ChildNames(rows, id)), filters))
    ensures forall n :: n in KeepExt(SortNames(ChildNames(rows, id)), filters) <==>
      Extension(n) !in filters && exists i :: 0 <= i < |rows| && rows[i].parent == id && rows[i].name == n
  {
    var sorted := SortNames(ChildNames(rows, id));
    KeepExtSorted(sorted, filters);
    KeepExtMembers(sorted, filters);
    ChildNamesMembers(rows, id);
    forall n ensures n in sorted <==> n in ChildNames(rows, id) {
      assert n in sorted <==> n in multiset(sorted);
      assert n in ChildNames(rows, id) <==> n in multiset(ChildNames(rows, id));
    }
  }

  // ------------------------------------------------------------------ the database

  class IndexerDb {
    var links: map<string, string>
    var catalogs: set<string>
    var table: FileTable

    ghost predicate Valid()
      reads this
    {
      TableValid(table)
    }

    /** onCreate: empty tables and the root row. */
    constructor ()
      ensures Valid()
      ensures links == map[] && catalogs == {} && table == FileTable([RootRow()], ROOT_FILE_ID + 1)
    {
      links := map[];
      catalogs := {};
      table := FileTable([RootRow()], ROOT_FILE_ID + 1);
    }

    /** replaceLink: insert the link, or repoint it when it names another hash. */
    method ReplaceLink(md5hash: string, linkPath: string)
      modifies this`links
      ensures links == old(links)[linkPath := md5hash]
    {
      var oldHash := ReadLink(links, linkPath);
      if oldHash.None? {
        links := links[linkPath := md5hash];
      } else if oldHash.value != md5hash {
        links := links[linkPath := md5hash];
      }
    }

    /** deleteCatalog: the catalog row, its files (and, by cascade, the rows
        below them) and the links naming it. */
    method DeleteCatalog(hash: string)
      requires Valid()
      modifies this
      ensures Valid()
      ensures catalogs == old(catalogs) - {hash}
      ensures links == map p | p in old(links) && old(links)[p] != hash :: old(links)[p]
      ensures table == FileTable(Cascade(old(table).rows, HashIds(old(table).rows, hash)), old(table).nextId)
    {
      catalogs := catalogs - {hash};
      CascadeValid(table, HashIds(table.rows, hash));
      table := FileTable(Cascade(table.rows, HashIds(table.rows, hash)), table.nextId);
      links := map p | p in links && links[p] != hash :: links[p];
    }

    /** deleteLink: drop the link; a catalog left without links is deleted. A
        missing link reads as null, and counting the links of a null hash
        throws before anything is deleted. */
    method DeleteLink(linkPath: string) returns (thrown: bool)
      requires Valid()
      modifies this
      ensures Valid()
      ensures thrown <==> linkPath !in old(links)
      ensures thrown ==> links == old(links) && catalogs == old(catalogs) && table == old(table)
      ensures !thrown ==> var h := old(links)[linkPath];
        && (CountCatalogLinks(old(links) - {linkPath}, h) >= 1 ==>
              links == old(links) - {linkPath} && catalogs == old(catalogs) && table == old(table))
        && (CountCatalogLinks(old(links) - {linkPath}, h) < 1 ==>
              links == old(links) - {linkPath} && catalogs == old(catalogs) - {h}
              && table == FileTable(Cascade(old(table).rows, HashIds(old(table).rows, h)), old(table).nextId))
    {
      var hash := ReadLink(links, linkPath);
      links := links - {linkPath};
      if hash.None? {
        return true;
      }
      thrown := false;
      if CountCatalogLinks(links, hash.value) < 1 {
        ghost var before := links;
        DeleteCatalog(hash.value);
        assert links == before by {
          assert forall p :: p in before ==> before[p] != hash.value;
        }
      }
    }

    /** The recursive replaceFile, proved against Upsert. */
    method ReplaceFileAt(hash: string, name: string, contents: string, parent: int)
      requires Valid() && ParentOk(table.rows, parent, hash)
      modifies this`table
      ensures Valid()
      ensures table == Upsert(old(table), hash, name, contents, parent)
      decreases |name|
    {
      var components := Components(name);
      var isDir := |components| > 1 && Trim(components[1]) != "";
      PutValid(table, hash, components[0], isDir, contents, parent);
      UpsertStep(table, hash, name, contents, parent);
      var id := PutRow(hash, components[0], isDir, contents, parent);
      if isDir {
        ParentOfNext(Placed(table, id), components[0], parent, hash, isDir, contents);
        ReplaceFileAt(hash, Trim(components[1]), contents, id);
      }
    }

    /** One upsert of replaceFile: query the key, then update or insert. */
    method PutRow(hash: string, name: string, isDir: bool, contents: string, parent: int) returns (id: int)
      modifies this`table
      ensures Placed(table, id) == Put(old(table), hash, name, isDir, contents, parent)
    {
      var k := RowIndex(table.rows, name, parent, hash);
      if k < |table.rows| {
        var row := table.rows[k];
        id := row.id;
        table := table.(rows := table.rows[k := row.(isDir := isDir, content := if isDir then row.content else Some(contents))]);
      } else if IdIndex(table.rows, parent) < |table.rows| {
        id := table.nextId;
        table := FileTable(table.rows + [FileRow(id, name, parent, hash, if isDir then None else Some(contents), isDir)], id + 1);
      } else {
        id := -1;
      }
    }

    /** replaceFile: the path is resolved from the root row. */
    method ReplaceFile(hash: string, path: string, contents: string)
      requires Valid()
      modifies this`table
      ensures Valid()
      ensures table == Upsert(old(table), hash, path, contents, ROOT_FILE_ID)
      ensures HasRow(old(table).rows, ROOT_FILE_ID) && CleanPath(path) ==> ReadFile(table.rows, hash, path) == Some(contents)
    {
      ReplaceFileAt(hash, path, contents, ROOT_FILE_ID);
      if HasRow(old(table).rows, ROOT_FILE_ID) && CleanPath(path) {
        ReplaceThenRead(old(table), hash, path, contents);
      }
    }

    /** deleteFile: the row the path finds, and by cascade every row below it. */
    method DeleteFile(hash: string, path: string)
      requires Valid()
      modifies this`table
      ensures Valid()
      ensures var id := FindFile(old(table).rows, hash, path, ROOT_FILE_ID);
        table == if id > 0 then FileTable(Cascade(old(table).rows, {id}), old(table).nextId) else old(table)
    {
      var fileId := FindFile(table.rows, hash, path, ROOT_FILE_ID);
      if fileId > 0 {
        CascadeValid(table, {fileId});
        table := FileTable(Cascade(table.rows, {fileId}), table.nextId);
      }
    }

    /** listDir: the names below the row the path finds, in name order, skipping
        those whose extension is one of the filters. */
    method ListDir(hash: string, path: string, extensionFilters: seq<string>) returns (files: seq<string>)
      ensures var id := FindFile(table.rows, hash, path, ROOT_FILE_ID);
        files == if id > 0 then KeepExt(SortNames(ChildNames(table.rows, id)), extensionFilters) else []
    {
      var fileId := FindFile(table.rows, hash, path, ROOT_FILE_ID);
      if fileId <= 0 {
        return [];
      }
      var cursor := SortNames(ChildNames(table.rows, fileId));
      files := FilterNames(cursor, extensionFilters);
    }
  }

  /** The loop of listDir over the sorted cursor. */
  method FilterNames(cursor: seq<string>, extensionFilters: seq<string>) returns (files: seq<string>)
    ensures files == KeepExt(cursor, extensionFilters)
  {
    files := [];
    var i := 0;
    while i < |cursor|
      invariant 0 <= i <= |cursor|
      invariant files == KeepExt(cursor[..i], extensionFilters)
    {
      var name := cursor[i];
      var skip := IsFiltered(Extension(name), extensionFilters);
      assert cursor[..i + 1][..i] == cursor[..i];
      if !skip {
        files := files + [name];
      }
      i := i + 1;
    }
    assert cursor[..i] == cursor;
  }

  /** The inner loop of listDir: is the extension one of the filters? */
  method IsFiltered(ext: string, extensionFilters: seq<string>) returns (skip: bool)
    ensures skip <==> ext in extensionFilters
  {
    skip := false;
    var j := 0;
    while j < |extensionFilters|
      invariant 0 <= j <= |extensionFilters|
      invariant ext !in extensionFilters[..j]
    {
      if ext == extensionFilters[j] {
        skip := true;
        break;
      }
      j := j + 1;
    }
  }
}
