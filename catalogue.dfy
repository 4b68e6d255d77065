/**
 * The `images` table of the bot's SQLite database and the operations of
 * `drive_bot/database.py` on it. The table is a sequence of rows in rowid
 * order; the `AUTOINCREMENT` counter is `nextId`. Each state-changing method
 * models the body of one operation inside one successful attempt of the
 * retry wrapper (module `Retry`), i.e. a transaction that is committed.
 */
module Catalogue {
  import opened Wrappers
  import opened Strings
  import Schema

  /** The `DEFAULT 'image/jpeg'` of the `mime_type` column. */
  const DefaultMimeType: string := "image/jpeg"

  /** One row of the `images` table. Nullable columns are `Option`s;
      timestamps are clock readings. */
  datatype ImageRow = ImageRow(
    id: nat,
    title: string,
    telegramFileId: string,
    driveFileId: string,
    shareLink: string,
    directLink: string,
    mimeType: string,
    fileSize: Option<int>,
    uploadTime: nat,
    lastAccessed: Option<nat>,
    uploaderId: Option<int>,
    isActive: bool)

  /** The column values an `INSERT INTO images (...)` supplies; the other
      columns take their defaults. */
  datatype NewImage = NewImage(
    title: string,
    telegramFileId: string,
    driveFileId: string,
    shareLink: string,
    directLink: string,
    fileSize: Option<int>,
    uploaderId: Option<int>,
    lastAccessed: Option<nat>)

  /** The row an INSERT of `n` creates with rowid `id` at time `now`:
      `mime_type`, `upload_time` and `is_active` take their defaults. */
  function RowOf(id: nat, n: NewImage, now: nat): ImageRow {
    ImageRow(id, n.title, n.telegramFileId, n.driveFileId, n.shareLink, n.directLink,
             DefaultMimeType, n.fileSize, now, n.lastAccessed, n.uploaderId, true)
  }

  // ---------------------------------------------------------------------
  // Table constraints

  /** `rel` holds of every pair of rows in table order. */
  predicate Pairwise(s: seq<ImageRow>, rel: (ImageRow, ImageRow) -> bool) {
    forall i, j :: 0 <= i < j < |s| ==> rel(s[i], s[j])
  }

  /** Two rows, `a` before `b`, that the table's constraints allow side by
      side: `UNIQUE (title)`, `drive_file_id ... UNIQUE`, and the
      `AUTOINCREMENT` ids growing in rowid order. */
  predicate RowsCompatible(a: ImageRow, b: ImageRow) {
    a.title != b.title && a.driveFileId != b.driveFileId && a.id < b.id
  }

  predicate DistinctTitles(a: ImageRow, b: ImageRow) {
    a.title != b.title
  }

  /** `CONSTRAINT title_unique UNIQUE (title)`, over every row, active or not. */
  predicate TitlesUnique(rows: seq<ImageRow>) {
    Pairwise(rows, DistinctTitles)
  }

  /** The table constraints, and every id below the counter, so no id is
      ever handed out twice even after a hard delete. */
  predicate WellFormed(rows: seq<ImageRow>, nextId: nat) {
    Pairwise(rows, RowsCompatible) && forall x :: x in rows ==> x.id < nextId
  }

  lemma WellFormedTitlesUnique(rows: seq<ImageRow>, nextId: nat)
    requires WellFormed(rows, nextId)
    ensures TitlesUnique(rows)
  {
    forall i, j | 0 <= i < j < |rows| ensures DistinctTitles(rows[i], rows[j]) {
      assert RowsCompatible(rows[i], rows[j]);
    }
  }

  predicate HasTitle(rows: seq<ImageRow>, title: string) {
    exists r :: r in rows && r.title == title
  }

  predicate HasDriveId(rows: seq<ImageRow>, driveFileId: string) {
    exists r :: r in rows && r.driveFileId == driveFileId
  }

  /** The rows that satisfy `keep`, in table order: a `WHERE` clause. */
  function Filter(s: seq<ImageRow>, keep: ImageRow -> bool): (r: seq<ImageRow>)
    ensures forall x :: x in r <==> x in s && keep(x)
    ensures |r| <= |s|
    ensures multiset(r) <= multiset(s)
  {
    if s == [] then []
    else
      assert s == [s[0]] + s[1..];
      if keep(s[0]) then [s[0]] + Filter(s[1..], keep) else Filter(s[1..], keep)
  }

  /** Filtering keeps rows in table order, so it keeps every pairwise property. */
  lemma {:induction false} FilterPairwise(s: seq<ImageRow>, keep: ImageRow -> bool,
                                          rel: (ImageRow, ImageRow) -> bool)
    requires Pairwise(s, rel)
    ensures Pairwise(Filter(s, keep), rel)
    decreases |s|
  {
    if s != [] {
      var tail := s[1..];
      assert Pairwise(tail, rel) by {
        forall i, j | 0 <= i < j < |tail| ensures rel(tail[i], tail[j]) {
          assert tail[i] == s[i + 1] && tail[j] == s[j + 1];
        }
      }
      FilterPairwise(tail, keep, rel);
      if keep(s[0]) {
        var rest := Filter(tail, keep);
        var r := [s[0]] + rest;
        forall i, j | 0 <= i < j < |r| ensures rel(r[i], r[j]) {
          if i == 0 {
            assert r[j] == rest[j - 1];
            assert r[j] in tail;
            var k :| 0 <= k < |tail| && tail[k] == r[j];
            assert s[k + 1] == r[j];
          } else {
            assert r[i] == rest[i - 1] && r[j] == rest[j - 1];
          }
        }
        assert Filter(s, keep) == r;
      }
    }
  }

  // ---------------------------------------------------------------------
  // Lookups

  /** `SELECT ... FROM images WHERE title = ?` and `fetchone()`: the first row
      with that title, active or not. */
  function FindByTitle(rows: seq<ImageRow>, title: string): (r: Option<ImageRow>)
    ensures r.Some? <==> HasTitle(rows, title)
    ensures r.Some? ==> r.value in rows && r.value.title == title
  {
    if rows == [] then None
    else if rows[0].title == title then Some(rows[0])
    else FindByTitle(rows[1..], title)
  }

  /** `SELECT * FROM images WHERE title = ? AND is_active = 1 LIMIT 1`. */
  function FindActive(rows: seq<ImageRow>, title: string): (r: Option<ImageRow>)
    ensures r.Some? <==> exists x :: x in rows && x.title == title && x.isActive
    ensures r.Some? ==> r.value in rows && r.value.title == title && r.value.isActive
  {
    if rows == [] then None
    else if rows[0].title == title && rows[0].isActive then Some(rows[0])
    else FindActive(rows[1..], title)
  }

  /** With unique titles, the row found is the one and only row with that title. */
  lemma FindByTitleUnique(rows: seq<ImageRow>, title: string, i: nat)
    requires TitlesUnique(rows) && i < |rows| && rows[i].title == title
    ensures FindByTitle(rows, title) == Some(rows[i])
  {
    forall j | 0 <= j < |rows| && j != i ensures rows[j].title != title {
      if i < j {
        assert DistinctTitles(rows[i], rows[j]);
      } else {
        assert DistinctTitles(rows[j], rows[i]);
      }
    }
  }

  // ---------------------------------------------------------------------
  // Table updates

  /** `UPDATE images SET last_accessed = ? WHERE title = ?`. */
  function Touched(rows: seq<ImageRow>, title: string, now: nat): (r: seq<ImageRow>)
    ensures |r| == |rows|
    ensures forall i :: 0 <= i < |rows| ==>
              r[i] == if rows[i].title == title then rows[i].(lastAccessed := Some(now)) else rows[i]
  {
    if rows == [] then []
    else
      var head := if rows[0].title == title then rows[0].(lastAccessed := Some(now)) else rows[0];
      [head] + Touched(rows[1..], title, now)
  }

  /** `UPDATE images SET is_active = 0 WHERE title = ?`. */
  function Deactivated(rows: seq<ImageRow>, title: string): (r: seq<ImageRow>)
    ensures |r| == |rows|
    ensures forall i :: 0 <= i < |rows| ==>
              r[i] == if rows[i].title == title then rows[i].(isActive := false) else rows[i]
  {
    if rows == [] then []
    else
      var head := if rows[0].title == title then rows[0].(isActive := false) else rows[0];
      [head] + Deactivated(rows[1..], title)
  }

  /** `DELETE FROM images WHERE title = ?`. */
  function Removed(rows: seq<ImageRow>, title: string): (r: seq<ImageRow>)
    ensures forall x :: x in r <==> x in rows && x.title != title
  {
    Filter(rows, (x: ImageRow) => x.title != title)
  }

  /** Touching a title changes nothing but that row's `last_accessed`, and
      keeps the table constraints. */
  lemma TouchedKeepsTable(rows: seq<ImageRow>, title: string, now: nat, nextId: nat)
    requires WellFormed(rows, nextId)
    ensures WellFormed(Touched(rows, title, now), nextId)
    ensures forall i :: 0 <= i < |rows| ==>
              Touched(rows, title, now)[i].(lastAccessed := rows[i].lastAccessed) == rows[i]
  {
    var t := Touched(rows, title, now);
    forall i, j | 0 <= i < j < |t| ensures RowsCompatible(t[i], t[j]) {
      assert RowsCompatible(rows[i], rows[j]);
    }
  }

  /** A soft delete keeps every row (only `is_active` can change) and the
      table constraints. */
  lemma DeactivatedKeepsRows(rows: seq<ImageRow>, title: string, nextId: nat)
    requires WellFormed(rows, nextId)
    ensures WellFormed(Deactivated(rows, title), nextId)
    ensures forall i :: 0 <= i < |rows| ==>
              Deactivated(rows, title)[i].(isActive := rows[i].isActive) == rows[i]
  {
    DeactivatedCompatible(rows, title);
    var d := Deactivated(rows, title);
    forall x | x in d ensures x.id < nextId {
      var i :| 0 <= i < |d| && d[i] == x;
      assert rows[i] in rows;
    }
  }

  lemma DeactivatedCompatible(rows: seq<ImageRow>, title: string)
    requires Pairwise(rows, RowsCompatible)
    ensures Pairwise(Deactivated(rows, title), RowsCompatible)
  {
    var d := Deactivated(rows, title);
    forall i, j | 0 <= i < j < |d| ensures RowsCompatible(d[i], d[j]) {
      assert RowsCompatible(rows[i], rows[j]);
    }
  }

  /** A second soft delete of the same title leaves the table identical. */
  lemma DeactivatedIdempotent(rows: seq<ImageRow>, title: string)
    ensures Deactivated(Deactivated(rows, title), title) == Deactivated(rows, title)
  {
    var d := Deactivated(rows, title);
    var dd := Deactivated(d, title);
    assert |dd| == |d|;
    forall i | 0 <= i < |d| ensures dd[i] == d[i] {
    }
  }

  /** After a soft delete no active row has that title. */
  lemma DeactivatedHidesTitle(rows: seq<ImageRow>, title: string)
    ensures FindActive(Deactivated(rows, title), title) == None
  {
    var d := Deactivated(rows, title);
    forall x | x in d && x.title == title ensures !x.isActive {
      var i :| 0 <= i < |d| && d[i] == x;
    }
  }

  /** A soft delete keeps the row: the title is still taken. */
  lemma DeactivatedKeepsTitle(rows: seq<ImageRow>, title: string)
    ensures HasTitle(Deactivated(rows, title), title) == HasTitle(rows, title)
  {
    if HasTitle(rows, title) {
      DeactivatedTitleKept(rows, title);
    }
    if HasTitle(Deactivated(rows, title), title) {
      DeactivatedTitleFrom(rows, title);
    }
  }

  lemma DeactivatedTitleKept(rows: seq<ImageRow>, title: string)
    requires HasTitle(rows, title)
    ensures HasTitle(Deactivated(rows, title), title)
  {
    var x :| x in rows && x.title == title;
    var i :| 0 <= i < |rows| && rows[i] == x;
    var d := Deactivated(rows, title);
    assert d[i].title == title && d[i] in d;
  }

  lemma DeactivatedTitleFrom(rows: seq<ImageRow>, title: string)
    requires HasTitle(Deactivated(rows, title), title)
    ensures HasTitle(rows, title)
  {
    var d := Deactivated(rows, title);
    var x :| x in d && x.title == title;
    var i :| 0 <= i < |d| && d[i] == x;
    assert rows[i].title == title && rows[i] in rows;
  }

  /** A hard delete keeps the table constraints and leaves no row with that title. */
  lemma RemovedKeepsTable(rows: seq<ImageRow>, title: string, nextId: nat)
    requires WellFormed(rows, nextId)
    ensures WellFormed(Removed(rows, title), nextId)
    ensures !HasTitle(Removed(rows, title), title)
  {
    FilterPairwise(rows, (x: ImageRow) => x.title != title, RowsCompatible);
  }

  /** A hard delete removes exactly one row when the title exists and none
      otherwise. */
  lemma {:induction false} RemovedCount(rows: seq<ImageRow>, title: string)
    requires TitlesUnique(rows)
    ensures |Removed(rows, title)| == |rows| - (if HasTitle(rows, title) then 1 else 0)
    decreases |rows|
  {
    if rows != [] {
      var tail := rows[1..];
      TailTitlesUnique(rows);
      RemovedCount(tail, title);
      assert Removed(rows, title) ==
             if rows[0].title == title then Removed(tail, title) else [rows[0]] + Removed(tail, title);
      if rows[0].title == title {
        assert !HasTitle(tail, title) by {
          forall x | x in tail ensures x.title != title {
            var k :| 0 <= k < |tail| && tail[k] == x;
            assert DistinctTitles(rows[0], rows[k + 1]);
          }
        }
      } else {
        assert HasTitle(rows, title) == HasTitle(tail, title) by {
          if HasTitle(rows, title) {
            var x :| x in rows && x.title == title;
            assert x in tail;
          }
        }
      }
    }
  }

  // ---------------------------------------------------------------------
  // The store

  class ImageStore {
    /** The rows of `images`, in rowid order. */
    var rows: seq<ImageRow>
    /** The `AUTOINCREMENT` counter: the id the next INSERT gets. */
    var nextId: nat
    /** The tables, columns, indexes and metadata of the database file. */
    var schema: Schema.SchemaState

    ghost predicate Valid()
      reads this
    {
      WellFormed(rows, nextId)
    }

    /** A new database file on which `init_db` has run. */
    constructor ()
      ensures Valid()
      ensures rows == [] && nextId == 1
      ensures schema == Schema.InitDb(Schema.EmptyFile).state
    {
      rows := [];
      nextId := 1;
      schema := Schema.InitDb(Schema.EmptyFile).state;
    }

    /** `init_db` on an existing file: the rows are untouched; `ok == false`
        means it raised. */
    method InitDb() returns (ok: bool)
      modifies this`schema
      ensures schema == Schema.InitDb(old(schema)).state
      ensures ok == Schema.InitDb(old(schema)).ok
    {
      var m := Schema.InitDb(schema);
      schema := m.state;
      ok := m.ok;
    }

    /** `migrate_database` as written; `ok == false` means it raised. */
    method MigrateDatabase() returns (ok: bool)
      modifies this`schema
      ensures schema == Schema.Migrate(old(schema)).state
      ensures ok == Schema.Migrate(old(schema)).ok
    {
      var m := Schema.Migrate(schema);
      schema := m.state;
      ok := m.ok;
    }

    /** An `INSERT INTO images`: it fails with an IntegrityError when the
        title or the Drive id is already in any row, active or not;
        otherwise it appends one active row with the next id at time `now`. */
    method Insert(n: NewImage, now: nat) returns (inserted: bool)
      requires Valid()
      modifies this`rows, this`nextId
      ensures Valid()
      ensures inserted <==> !HasTitle(old(rows), n.title) && !HasDriveId(old(rows), n.driveFileId)
      ensures inserted ==> rows == old(rows) + [RowOf(old(nextId), n, now)] && nextId == old(nextId) + 1
      ensures inserted ==> forall r :: r in old(rows) ==> r.id < old(nextId)
      ensures !inserted ==> rows == old(rows) && nextId == old(nextId)
    {
      if HasTitle(rows, n.title) || HasDriveId(rows, n.driveFileId) {
        inserted := false;
        return;
      }
      var row := RowOf(nextId, n, now);
      forall x | x in rows ensures x.title != n.title && x.driveFileId != n.driveFileId {
      }
      rows := rows + [row];
      nextId := nextId + 1;
      inserted := true;
    }

    /** `add_image`: True when the row was inserted, False on a duplicate
        title or Drive id (the IntegrityError is caught). It stamps
        `last_accessed` with the current time. */
    method AddImage(title: string, telegramFileId: string, driveFileId: string, shareLink: string,
                    directLink: string, fileSize: Option<int>, uploaderId: Option<int>, now: nat)
      returns (added: bool)
      requires Valid()
      modifies this`rows, this`nextId
      ensures Valid()
      ensures added <==> !HasTitle(old(rows), title) && !HasDriveId(old(rows), driveFileId)
      ensures added ==> nextId == old(nextId) + 1 && rows == old(rows) + [
                ImageRow(old(nextId), title, telegramFileId, driveFileId, shareLink, directLink,
                         DefaultMimeType, fileSize, now, Some(now), uploaderId, true)]
      ensures added ==> forall r :: r in old(rows) ==> r.id < rows[|rows| - 1].id
      ensures !added ==> rows == old(rows) && nextId == old(nextId)
    {
      added := Insert(NewImage(title, telegramFileId, driveFileId, shareLink, directLink,
                               fileSize, uploaderId, Some(now)), now);
    }

    /** `get_image_by_title`: stamps `last_accessed` on the row with that
        title whether or not it is active, then returns it only if active. */
    method GetImageByTitle(title: string, now: nat) returns (found: Option<ImageRow>)
      requires Valid()
      modifies this`rows
      ensures Valid()
      ensures rows == Touched(old(rows), title, now)
      ensures found.Some? <==> exists x :: x in old(rows) && x.title == title && x.isActive
      ensures found.Some? ==> found.value.title == title && found.value.isActive
                              && found.value.lastAccessed == Some(now) && found.value in rows
    {
      TouchedKeepsTable(rows, title, now, nextId);
      ghost var before := rows;
      rows := Touched(rows, title, now);
      found := FindActive(rows, title);
      if found.Some? {
        var i :| 0 <= i < |rows| && rows[i] == found.value;
        assert before[i].title == title && before[i].isActive;
      } else {
        forall x | x in before && x.title == title ensures !x.isActive {
          var i :| 0 <= i < |before| && before[i] == x;
          assert rows[i].title == title && rows[i].isActive == x.isActive;
        }
      }
    }

    /** `delete_image` in `database.py`: a soft delete. It reports whether a
        row with that title exists (SQLite counts a matched row even if it
        was inactive already) and never removes a row. */
    method DeleteImage(title: string) returns (deleted: bool)
      requires Valid()
      modifies this`rows
      ensures Valid()
      ensures rows == Deactivated(old(rows), title)
      ensures deleted == HasTitle(old(rows), title)
    {
      DeactivatedKeepsRows(rows, title, nextId);
      deleted := HasTitle(rows, title);
      rows := Deactivated(rows, title);
    }

    /** `DELETE FROM images WHERE title = ?`, followed by a commit. */
    method HardDelete(title: string)
      requires Valid()
      modifies this`rows
      ensures Valid()
      ensures rows == Removed(old(rows), title)
    {
      RemovedKeepsTable(rows, title, nextId);
      rows := Removed(rows, title);
    }
  }

  // ---------------------------------------------------------------------
  // Queries

  /** The rows `WHERE is_active = 1`, in table order. */
  function ActiveRows(rows: seq<ImageRow>): (r: seq<ImageRow>)
    ensures forall x :: x in r <==> x in rows && x.isActive
    ensures |r| <= |rows|
  {
    Filter(rows, (x: ImageRow) => x.isActive)
  }

  /** `ORDER BY upload_time DESC`. */
  predicate NewestFirst(s: seq<ImageRow>) {
    forall i, j :: 0 <= i < j < |s| ==> s[i].uploadTime >= s[j].uploadTime
  }

  /** Inserts `x` before the first row that is not newer than it. */
  function InsertByTime(x: ImageRow, s: seq<ImageRow>): (r: seq<ImageRow>)
    ensures multiset(r) == multiset(s) + multiset{x}
    ensures |r| == |s| + 1
  {
    if s == [] || s[0].uploadTime <= x.uploadTime then [x] + s
    else
      assert s == [s[0]] + s[1..];
      [s[0]] + InsertByTime(x, s[1..])
  }

  /** An element of the result of `InsertByTime(x, s)` is `x` or one of `s`. */
  lemma InsertByTimeElements(x: ImageRow, s: seq<ImageRow>, y: ImageRow)
    requires y in InsertByTime(x, s)
    ensures y == x || y in s
  {
    assert y in multiset(InsertByTime(x, s));
  }

  /** Inserting into a newest-first sequence keeps it newest first. */
  lemma {:induction false} InsertByTimeSorted(x: ImageRow, s: seq<ImageRow>)
    requires NewestFirst(s)
    ensures NewestFirst(InsertByTime(x, s))
    decreases |s|
  {
    if !(s == [] || s[0].uploadTime <= x.uploadTime) {
      var tail := s[1..];
      InsertByTimeSorted(x, tail);
      var rest := InsertByTime(x, tail);
      forall i | 0 <= i < |rest| ensures rest[i].uploadTime <= s[0].uploadTime {
        InsertByTimeElements(x, tail, rest[i]);
        if rest[i] != x {
          var k :| 0 <= k < |tail| && tail[k] == rest[i];
          assert s[k + 1] == rest[i];
        }
      }
      var r := [s[0]] + rest;
      forall i, j | 0 <= i < j < |r| ensures r[i].uploadTime >= r[j].uploadTime {
        assert r[j] == rest[j - 1];
        if i > 0 {
          assert r[i] == rest[i - 1];
        }
      }
    }
  }

  /** A stable sort on `upload_time`, newest first; among equal times rows
      keep table order. */
  function SortNewestFirst(s: seq<ImageRow>): (r: seq<ImageRow>)
    ensures NewestFirst(r)
    ensures multiset(r) == multiset(s)
    ensures |r| == |s|
  {
    if s == [] then []
    else
      assert s == [s[0]] + s[1..];
      InsertByTimeSorted(s[0], SortNewestFirst(s[1..]));
      InsertByTime(s[0], SortNewestFirst(s[1..]))
  }

  /** The tail of a sequence with unique titles has unique titles. */
  lemma TailTitlesUnique(s: seq<ImageRow>)
    requires |s| > 0 && TitlesUnique(s)
    ensures TitlesUnique(s[1..])
  {
    var tail := s[1..];
    forall i, j | 0 <= i < j < |tail| ensures DistinctTitles(tail[i], tail[j]) {
      assert tail[i] == s[i + 1] && tail[j] == s[j + 1];
    }
  }

  /** Putting a row with a new title in front keeps titles unique. */
  lemma ConsTitlesUnique(y: ImageRow, s: seq<ImageRow>)
    requires TitlesUnique(s)
    requires forall z :: z in s ==> z.title != y.title
    ensures TitlesUnique([y] + s)
  {
    var r := [y] + s;
    forall i, j | 0 <= i < j < |r| ensures DistinctTitles(r[i], r[j]) {
      assert r[j] == s[j - 1];
      if i > 0 {
        assert r[i] == s[i - 1];
      }
    }
  }

  /** Inserting a row whose title is new keeps titles unique. */
  lemma {:induction false} InsertByTimeTitlesUnique(x: ImageRow, s: seq<ImageRow>)
    requires TitlesUnique(s)
    requires forall y :: y in s ==> y.title != x.title
    ensures TitlesUnique(InsertByTime(x, s))
    decreases |s|
  {
    if s == [] || s[0].uploadTime <= x.uploadTime {
      ConsTitlesUnique(x, s);
    } else {
      var tail := s[1..];
      TailTitlesUnique(s);
      InsertByTimeTitlesUnique(x, tail);
      var rest := InsertByTime(x, tail);
      forall z | z in rest ensures z.title != s[0].title {
        InsertByTimeElements(x, tail, z);
        if z != x {
          var k :| 0 <= k < |tail| && tail[k] == z;
          assert DistinctTitles(s[0], s[k + 1]);
        }
      }
      ConsTitlesUnique(s[0], rest);
    }
  }

  /** Sorting keeps titles unique. */
  lemma {:induction false} SortTitlesUnique(s: seq<ImageRow>)
    requires TitlesUnique(s)
    ensures TitlesUnique(SortNewestFirst(s))
    decreases |s|
  {
    if s != [] {
      var tail := s[1..];
      TailTitlesUnique(s);
      SortTitlesUnique(tail);
      var sorted := SortNewestFirst(tail);
      forall y | y in sorted ensures y.title != s[0].title {
        assert y in multiset(sorted);
        assert y in tail;
        var k :| 0 <= k < |tail| && tail[k] == y;
        assert DistinctTitles(s[0], s[k + 1]);
      }
      InsertByTimeTitlesUnique(s[0], sorted);
    }
  }

  /** Where an `OFFSET` starts in a result of `n` rows; a negative offset
      counts as zero. */
  function Start(n: nat, offset: int): (k: nat)
    ensures k <= n
    ensures offset < 0 ==> k == 0
    ensures 0 <= offset <= n ==> k == offset
    ensures offset > n ==> k == n
  {
    if offset < 0 then 0 else if offset > n then n else offset
  }

  /** SQL `LIMIT limit OFFSET offset` on a result sequence: a negative limit
      means no limit. */
  function Window<T>(s: seq<T>, limit: int, offset: int): (r: seq<T>)
    ensures limit >= 0 ==> |r| <= limit
    ensures limit >= 0 && offset >= 0 ==>
              |r| == (if offset >= |s| then 0 else if limit < |s| - offset then limit else |s| - offset)
    ensures limit < 0 ==> |r| == |s| - Start(|s|, offset)
    ensures limit >= 0 ==> |r| == Min(limit, |s| - Start(|s|, offset))
    ensures Start(|s|, offset) + |r| <= |s|
    ensures r == s[Start(|s|, offset)..Start(|s|, offset) + |r|]
  {
    var start := Start(|s|, offset);
    var stop := if limit < 0 || limit > |s| - start then |s| else start + limit;
    s[start..stop]
  }

  /** A row of the `list_images` result: title, share link, upload time. */
  datatype ListEntry = ListEntry(title: string, shareLink: string, uploadTime: nat)

  function EntryOf(x: ImageRow): ListEntry {
    ListEntry(x.title, x.shareLink, x.uploadTime)
  }

  /** The ordered active rows `list_images` pages through. */
  function Listing(rows: seq<ImageRow>): seq<ImageRow> {
    SortNewestFirst(ActiveRows(rows))
  }

  /** The listing holds exactly the active rows, newest first. */
  lemma ListingFacts(rows: seq<ImageRow>)
    ensures NewestFirst(Listing(rows))
    ensures |Listing(rows)| == |ActiveRows(rows)|
    ensures forall i :: 0 <= i < |Listing(rows)| ==> Listing(rows)[i] in rows && Listing(rows)[i].isActive
  {
    var all := Listing(rows);
    forall i | 0 <= i < |all| ensures all[i] in rows && all[i].isActive {
      assert all[i] in multiset(all);
      assert all[i] in multiset(ActiveRows(rows));
    }
  }

  function Min(a: int, b: int): int { if a <= b then a else b }
  function Max(a: int, b: int): int { if a >= b then a else b }

  /** The page of the listing that `LIMIT limit OFFSET offset` selects. */
  function Page(rows: seq<ImageRow>, limit: int, offset: int): seq<ImageRow> {
    Window(Listing(rows), limit, offset)
  }

  /** A page holds active rows only, newest first, and is as long as the
      active rows left after the offset allow. */
  lemma PageFacts(rows: seq<ImageRow>, limit: int, offset: int)
    ensures NewestFirst(Page(rows, limit, offset))
    ensures forall i :: 0 <= i < |Page(rows, limit, offset)| ==>
              Page(rows, limit, offset)[i] in rows && Page(rows, limit, offset)[i].isActive
    ensures limit >= 0 && offset >= 0 ==>
              |Page(rows, limit, offset)| == Min(limit, Max(0, |ActiveRows(rows)| - offset))
  {
    var all := Listing(rows);
    ListingFacts(rows);
    PageOfSorted(all, limit, offset);
  }

  /** A window of a newest-first sequence is newest first and holds only
      elements of that sequence. */
  lemma PageOfSorted(all: seq<ImageRow>, limit: int, offset: int)
    requires NewestFirst(all)
    ensures NewestFirst(Window(all, limit, offset))
    ensures forall i :: 0 <= i < |Window(all, limit, offset)| ==> Window(all, limit, offset)[i] in all
  {
    var page := Window(all, limit, offset);
    var start := Start(|all|, offset);
    forall i, j | 0 <= i < j < |page| ensures page[i].uploadTime >= page[j].uploadTime {
      assert page[i] == all[start + i] && page[j] == all[start + j];
    }
    forall i | 0 <= i < |page| ensures page[i] in all {
      assert page[i] == all[start + i];
    }
  }

  /** The `(title, share_link, upload_time)` columns of each row. */
  function Entries(s: seq<ImageRow>): (r: seq<ListEntry>)
    ensures |r| == |s|
    ensures forall i :: 0 <= i < |s| ==> r[i] == EntryOf(s[i])
  {
    if s == [] then [] else [EntryOf(s[0])] + Entries(s[1..])
  }

  /** `list_images(limit, offset)`: active rows only, newest first, one page. */
  function ListImages(rows: seq<ImageRow>, limit: int, offset: int): (r: seq<ListEntry>)
    ensures limit >= 0 && offset >= 0 ==>
              |r| == Min(limit, Max(0, |ActiveRows(rows)| - offset))
    ensures forall i, j :: 0 <= i < j < |r| ==> r[i].uploadTime >= r[j].uploadTime
    ensures forall i :: 0 <= i < |r| ==>
              exists x :: x in rows && x.isActive && r[i] == EntryOf(x)
    ensures offset >= 0 ==> forall i :: 0 <= i < |r| ==>
              offset + i < |Listing(rows)| && r[i] == EntryOf(Listing(rows)[offset + i])
    ensures offset < 0 ==> forall i :: 0 <= i < |r| ==>
              i < |Listing(rows)| && r[i] == EntryOf(Listing(rows)[i])
  {
    PageFacts(rows, limit, offset);
    WindowAt(Listing(rows), limit, offset);
    Entries(Page(rows, limit, offset))
  }

  /** Element `i` of a window is element `offset + i` of the sequence, with
      a negative offset counted as zero. */
  lemma WindowAt<T>(s: seq<T>, limit: int, offset: int)
    ensures offset >= 0 ==> forall i :: 0 <= i < |Window(s, limit, offset)| ==>
              offset + i < |s| && Window(s, limit, offset)[i] == s[offset + i]
    ensures offset < 0 ==> forall i :: 0 <= i < |Window(s, limit, offset)| ==>
              i < |s| && Window(s, limit, offset)[i] == s[i]
  {
    var w := Window(s, limit, offset);
    var start := Start(|s|, offset);
    assert forall i :: 0 <= i < |w| ==> w[i] == s[start + i];
  }

  /** Two slices of a sequence with unique titles, the first ending where or
      before the second starts, share no title. */
  lemma SlicesDisjoint(all: seq<ImageRow>, s1: nat, e1: nat, s2: nat, e2: nat)
    requires TitlesUnique(all) && s1 <= e1 <= s2 <= e2 <= |all|
    ensures forall a, b :: a in all[s1..e1] && b in all[s2..e2] ==> a.title != b.title
  {
    forall a, b | a in all[s1..e1] && b in all[s2..e2] ensures a.title != b.title {
      var i :| s1 <= i < e1 && all[i] == a;
      var j :| s2 <= j < e2 && all[j] == b;
      assert DistinctTitles(all[i], all[j]);
    }
  }

  /** Windows at offsets `k` and `k + limit` of a sequence with unique
      titles share no title. */
  lemma WindowsDisjoint(all: seq<ImageRow>, limit: nat, k: nat)
    requires TitlesUnique(all)
    ensures forall a, b :: a in Window(all, limit, k) && b in Window(all, limit, k + limit) ==>
              a.title != b.title
  {
    var w1 := Window(all, limit, k);
    var w2 := Window(all, limit, k + limit);
    var s1 := Start(|all|, k);
    var s2 := Start(|all|, k + limit);
    SlicesDisjoint(all, s1, s1 + |w1|, s2, s2 + |w2|);
  }

  /** Consecutive pages share no image: with unique titles, the page at
      offset `k + limit` has no title in common with the page at `k`. */
  lemma ListPagesDisjoint(rows: seq<ImageRow>, limit: nat, k: nat)
    requires TitlesUnique(rows)
    ensures forall a, b :: a in ListImages(rows, limit, k) && b in ListImages(rows, limit, k + limit) ==>
              a.title != b.title
  {
    FilterPairwise(rows, (x: ImageRow) => x.isActive, DistinctTitles);
    SortTitlesUnique(ActiveRows(rows));
    WindowsDisjoint(Listing(rows), limit, k);
    var w1 := Page(rows, limit, k);
    var w2 := Page(rows, limit, k + limit);
    forall a, b | a in Entries(w1) && b in Entries(w2) ensures a.title != b.title {
      var i :| 0 <= i < |w1| && Entries(w1)[i] == a;
      var j :| 0 <= j < |w2| && Entries(w2)[j] == b;
      assert w1[i] in w1 && w2[j] in w2;
    }
  }

  /** A row of the `search_images` result: title and share link. */
  datatype SearchHit = SearchHit(title: string, shareLink: string)

  function HitOf(x: ImageRow): SearchHit {
    SearchHit(x.title, x.shareLink)
  }

  /** `WHERE title LIKE '%query%' AND is_active = 1`, in table order. */
  function Matches(rows: seq<ImageRow>, query: string): (r: seq<ImageRow>)
    ensures forall x :: x in r <==> x in rows && x.isActive && Contains(x.title, query)
  {
    Filter(rows, (x: ImageRow) => x.isActive && Contains(x.title, query))
  }

  /** `search_images(query, limit)`. */
  function SearchImages(rows: seq<ImageRow>, query: string, limit: int): (r: seq<SearchHit>)
    ensures limit >= 0 ==> |r| == Min(limit, |Matches(rows, query)|)
    ensures limit < 0 ==> |r| == |Matches(rows, query)|
    ensures forall i :: 0 <= i < |r| ==> r[i] == HitOf(Matches(rows, query)[i])
    ensures forall i :: 0 <= i < |r| ==>
              exists x :: x in rows && x.isActive && Contains(x.title, query) && r[i] == HitOf(x)
    ensures limit < 0 || |Matches(rows, query)| <= limit ==>
              forall x :: x in rows && x.isActive && Contains(x.title, query) ==> HitOf(x) in r
  {
    var m := Matches(rows, query);
    var page := Window(m, limit, 0);
    var r := seq(|page|, i requires 0 <= i < |page| => HitOf(page[i]));
    assert forall i :: 0 <= i < |page| ==> r[i] == HitOf(page[i]) && page[i] == m[i];
    assert forall i :: 0 <= i < |page| ==> page[i] in m;
    assert limit < 0 || |m| <= limit ==> |page| == |m|;
    r
  }

  // ---------------------------------------------------------------------
  // Statistics

  /** The file sizes that are known, summed; unknown sizes count as 0. */
  function KnownSizeTotal(s: seq<ImageRow>): (r: int)
    ensures (forall x :: x in s ==> x.fileSize.None?) ==> r == 0
  {
    if s == [] then 0
    else (if s[0].fileSize.Some? then s[0].fileSize.value else 0) + KnownSizeTotal(s[1..])
  }

  /** SQL `SUM(file_size)`: NULLs are skipped, and the sum of no values is NULL. */
  function SumSizes(s: seq<ImageRow>): (r: Option<int>)
    ensures r.None? <==> forall x :: x in s ==> x.fileSize.None?
    ensures r.Some? ==> r.value == KnownSizeTotal(s)
  {
    if s == [] then None
    else
      var rest := SumSizes(s[1..]);
      assert forall x :: x in s <==> x == s[0] || x in s[1..];
      match s[0].fileSize
      case None => rest
      case Some(v) => if rest.None? then Some(v) else Some(v + rest.value)
  }

  /** SQL `MIN(upload_time)`; NULL over no rows. */
  function OldestUpload(s: seq<ImageRow>): (r: Option<nat>)
    ensures r.None? <==> s == []
    ensures r.Some? ==> (forall x :: x in s ==> r.value <= x.uploadTime)
                        && exists x :: x in s && x.uploadTime == r.value
  {
    if s == [] then None
    else
      var rest := OldestUpload(s[1..]);
      assert forall x :: x in s <==> x == s[0] || x in s[1..];
      if rest.None? || s[0].uploadTime <= rest.value then Some(s[0].uploadTime) else rest
  }

  /** SQL `MAX(upload_time)`; NULL over no rows. */
  function NewestUpload(s: seq<ImageRow>): (r: Option<nat>)
    ensures r.None? <==> s == []
    ensures r.Some? ==> (forall x :: x in s ==> x.uploadTime <= r.value)
                        && exists x :: x in s && x.uploadTime == r.value
  {
    if s == [] then None
    else
      var rest := NewestUpload(s[1..]);
      assert forall x :: x in s <==> x == s[0] || x in s[1..];
      if rest.None? || s[0].uploadTime >= rest.value then Some(s[0].uploadTime) else rest
  }

  datatype Stats = Stats(totalImages: nat, totalSize: Option<int>,
                         oldestUpload: Option<nat>, newestUpload: Option<nat>)

  /** `get_stats`: aggregates over the active rows only. */
  function GetStats(rows: seq<ImageRow>): (st: Stats)
    ensures st.totalImages == |ActiveRows(rows)|
    ensures st.totalSize.None? <==> forall x :: x in rows && x.isActive ==> x.fileSize.None?
    ensures st.totalSize.Some? ==> st.totalSize.value == KnownSizeTotal(ActiveRows(rows))
    ensures st.oldestUpload.None? <==> forall x :: x in rows ==> !x.isActive
    ensures st.oldestUpload.Some? ==>
              (forall x :: x in rows && x.isActive ==> st.oldestUpload.value <= x.uploadTime)
              && exists x :: x in rows && x.isActive && x.uploadTime == st.oldestUpload.value
    ensures st.newestUpload.None? <==> forall x :: x in rows ==> !x.isActive
    ensures st.newestUpload.Some? ==>
              (forall x :: x in rows && x.isActive ==> x.uploadTime <= st.newestUpload.value)
              && exists x :: x in rows && x.isActive && x.uploadTime == st.newestUpload.value
  {
    var act := ActiveRows(rows);
    assert act != [] ==> act[0] in act;
    Stats(|act|, SumSizes(act), OldestUpload(act), NewestUpload(act))
  }
}
