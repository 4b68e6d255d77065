/**
 * The schema of the bot's SQLite file as `init_db` and `migrate_database`
 * see it: whether the `images` and `metadata` tables exist, the columns of
 * `images`, the indexes, the metadata key/value pairs and the
 * `PRAGMA user_version` counter.
 */
module Schema {
  import opened Wrappers

  /** The columns `init_db` gives a freshly created `images` table. */
  const ImagesColumns: set<string> := {
    "id", "title", "telegram_file_id", "drive_file_id", "share_link", "direct_link",
    "mime_type", "file_size", "upload_time", "last_accessed", "uploader_id", "is_active"
  }

  const DriveFileIdIndex: string := "idx_drive_file_id"
  const UploadTimeIndex: string := "idx_upload_time"
  const SchemaVersionKey: string := "schema_version"
  const InitialSchemaVersion: string := "1.1"

  /** The two columns the version 0 to 1 migration adds, in script order. */
  const UploaderIdColumn: string := "uploader_id"
  const LastAccessedColumn: string := "last_accessed"

  datatype SchemaState = SchemaState(
    imagesColumns: Option<set<string>>,      // None: there is no images table
    indexes: set<string>,
    metadata: Option<map<string, string>>,   // None: there is no metadata table
    userVersion: nat)

  /** A database file nothing has been written to yet. */
  const EmptyFile: SchemaState := SchemaState(None, {}, None, 0)

  /** The schema after a step and whether it succeeded (`ok == false` means
      the step raised). */
  datatype Change = Change(state: SchemaState, ok: bool)

  /** The columns of `images` once `CREATE TABLE IF NOT EXISTS images` ran:
      an existing table is kept as it is. */
  function TableColumns(s: SchemaState): set<string> {
    if s.imagesColumns.None? then ImagesColumns else s.imagesColumns.value
  }

  /** The metadata keys before `init_db`. */
  function MetadataKeys(s: SchemaState): set<string> {
    if s.metadata.None? then {} else s.metadata.value.Keys
  }

  /** `CREATE INDEX IF NOT EXISTS name ON images(col)`: nothing happens when
      the index exists; otherwise it is created, or the statement raises
      when the table has no such column. */
  function CreateIndex(s: SchemaState, name: string, col: string): (m: Change)
    requires s.imagesColumns.Some?
    ensures m.ok <==> name in s.indexes || col in s.imagesColumns.value
    ensures m.ok ==> m.state == s.(indexes := s.indexes + {name})
    ensures !m.ok ==> m.state == s
  {
    if name in s.indexes then Change(s, true)
    else if col in s.imagesColumns.value then Change(s.(indexes := s.indexes + {name}), true)
    else Change(s, false)
  }

  /** `init_db`: every statement is `IF NOT EXISTS` or `INSERT OR IGNORE`, so
      what exists is kept and only what is missing is created. The DDL runs
      outside a transaction, so when an index cannot be created on an
      existing table that lacks its column, the statements before it stay
      applied and the rest never run. It never touches `user_version`. */
  function InitDb(s: SchemaState): (m: Change)
    ensures m.ok <==> (DriveFileIdIndex in s.indexes || "drive_file_id" in TableColumns(s))
                      && (UploadTimeIndex in s.indexes || "upload_time" in TableColumns(s))
    ensures m.state.imagesColumns == Some(TableColumns(s))
    ensures m.state.userVersion == s.userVersion
    ensures m.ok ==> m.state.indexes == s.indexes + {DriveFileIdIndex, UploadTimeIndex}
    ensures m.ok ==> m.state.metadata.Some? && m.state.metadata.value.Keys == MetadataKeys(s) + {SchemaVersionKey}
    ensures m.ok && s.metadata.Some? ==>
              forall k :: k in s.metadata.value ==> m.state.metadata.value[k] == s.metadata.value[k]
    ensures m.ok && SchemaVersionKey !in MetadataKeys(s) ==>
              m.state.metadata.value[SchemaVersionKey] == InitialSchemaVersion
    ensures !m.ok ==> m.state.metadata == s.metadata
    ensures !m.ok && (DriveFileIdIndex in s.indexes || "drive_file_id" in TableColumns(s)) ==>
              m.state.indexes == s.indexes + {DriveFileIdIndex}
    ensures !m.ok && !(DriveFileIdIndex in s.indexes || "drive_file_id" in TableColumns(s)) ==>
              m.state.indexes == s.indexes
  {
    var tabled := s.(imagesColumns := Some(TableColumns(s)));
    var first := CreateIndex(tabled, DriveFileIdIndex, "drive_file_id");
    if !first.ok then first
    else
      var second := CreateIndex(first.state, UploadTimeIndex, "upload_time");
      if !second.ok then second
      else
        var meta := if s.metadata.None? then map[] else s.metadata.value;
        var seeded := if SchemaVersionKey in meta then meta else meta[SchemaVersionKey := InitialSchemaVersion];
        Change(second.state.(metadata := Some(seeded)), true)
  }

  /** On a new file `init_db` succeeds and creates the whole schema. */
  lemma InitDbFreshFile()
    ensures InitDb(EmptyFile).ok
    ensures InitDb(EmptyFile).state ==
              SchemaState(Some(ImagesColumns), {DriveFileIdIndex, UploadTimeIndex},
                          Some(map[SchemaVersionKey := InitialSchemaVersion]), 0)
  {
    assert "drive_file_id" in ImagesColumns && "upload_time" in ImagesColumns;
  }

  /** Once `init_db` has succeeded, running it again on every start-up
      changes nothing more. */
  lemma InitDbIdempotent(s: SchemaState)
    requires InitDb(s).ok
    ensures InitDb(InitDb(s).state) == InitDb(s)
  {
  }

  /** `ALTER TABLE images ADD COLUMN col`: fails when there is no images
      table or when the column already exists. */
  function AddColumn(s: SchemaState, col: string): (m: Change)
    ensures m.ok <==> s.imagesColumns.Some? && col !in s.imagesColumns.value
    ensures m.ok ==> m.state == s.(imagesColumns := Some(s.imagesColumns.value + {col}))
    ensures !m.ok ==> m.state == s
  {
    if s.imagesColumns.None? || col in s.imagesColumns.value then Change(s, false)
    else Change(s.(imagesColumns := Some(s.imagesColumns.value + {col})), true)
  }

  /** `migrate_database` as written: at `user_version` 0 it runs a script of
      two unconditional `ADD COLUMN`s and then sets `user_version = 1`. The
      script runs statement by statement, so a first `ALTER` that succeeded
      stays applied when the second one fails. */
  function Migrate(s: SchemaState): Change {
    if s.userVersion != 0 then Change(s, true)
    else
      var first := AddColumn(s, UploaderIdColumn);
      if !first.ok then first
      else
        var second := AddColumn(first.state, LastAccessedColumn);
        if !second.ok then second
        else Change(second.state.(userVersion := 1), true)
  }

  /** On a legacy images table that lacks both columns, the migration adds
      them and advances the counter. */
  lemma MigrateLegacyTable(s: SchemaState)
    requires s.userVersion == 0 && s.imagesColumns.Some?
    requires UploaderIdColumn !in s.imagesColumns.value && LastAccessedColumn !in s.imagesColumns.value
    ensures Migrate(s).ok
    ensures Migrate(s).state.userVersion == 1
    ensures Migrate(s).state.imagesColumns ==
              Some(s.imagesColumns.value + {UploaderIdColumn, LastAccessedColumn})
  {
    assert s.imagesColumns.value + {UploaderIdColumn} + {LastAccessedColumn} ==
           s.imagesColumns.value + {UploaderIdColumn, LastAccessedColumn};
  }

  /** As written, migrating a database that `init_db` created always fails:
      `init_db` already creates both columns and never sets `user_version`,
      so the first `ALTER` raises and the counter stays at 0. */
  lemma MigrateFailsAfterInit(s: SchemaState)
    requires s.imagesColumns.None? && s.userVersion == 0
    ensures InitDb(s).ok
    ensures !Migrate(InitDb(s).state).ok
    ensures Migrate(InitDb(s).state).state == InitDb(s).state
    ensures Migrate(InitDb(s).state).state.userVersion == 0
  {
    assert UploaderIdColumn in ImagesColumns;
  }

  /** The migration as evidently intended: at `user_version` 0 add only the
      columns that are missing, then set `user_version = 1`. */
  function MigrateFixed(s: SchemaState): (m: Change)
    ensures m.ok <==> s.userVersion != 0 || s.imagesColumns.Some?
    ensures !m.ok ==> m.state == s
  {
    if s.userVersion != 0 then Change(s, true)
    else if s.imagesColumns.None? then Change(s, false)
    else
      var cols := s.imagesColumns.value + {UploaderIdColumn, LastAccessedColumn};
      Change(s.(imagesColumns := Some(cols), userVersion := 1), true)
  }

  /** The fixed migration succeeds on every database `init_db` has run on
      and leaves it at version 1 or above. On a file at `user_version` 0,
      which is every file `init_db` created, since `init_db` never sets it,
      both columns are then present; a file already past version 0 is left
      as `init_db` left it. */
  lemma MigrateFixedAfterInit(s: SchemaState)
    ensures MigrateFixed(InitDb(s).state).ok
    ensures MigrateFixed(InitDb(s).state).state.userVersion >= 1
    ensures s.userVersion == 0 ==>
              var cols := MigrateFixed(InitDb(s).state).state.imagesColumns;
              cols.Some? && UploaderIdColumn in cols.value && LastAccessedColumn in cols.value
    ensures s.userVersion != 0 ==> MigrateFixed(InitDb(s).state).state == InitDb(s).state
  {
  }

  /** Running the fixed migration a second time changes nothing. */
  lemma MigrateFixedIdempotent(s: SchemaState)
    requires MigrateFixed(s).ok
    ensures MigrateFixed(MigrateFixed(s).state) == MigrateFixed(s)
  {
  }
}
