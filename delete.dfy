/**
 * The admin `/delete` command of `drive_bot/handlers/delete_handler.py`: a
 * chain of guards, a lookup of the Drive id, the Drive delete (supplied as an
 * outcome) and a hard `DELETE` of the row. Unlike `delete_image` in
 * `database.py`, the row is removed, not deactivated.
 */
module DeleteHandler {
  import opened Strings
  import Catalogue

  datatype Reply =
    | AdminOnly              // "Admin only command."
    | Usage                  // "Usage: /delete <title>"
    | NotFound               // "Image not found."
    | Deleted(title: string) // "'...' deleted successfully."
    | Failed                 // "Error: ..." for the exception the Drive call raised

  /** What the handler does to the database and to Drive. */
  datatype Action =
    | OpenDb
    | SelectDriveId(title: string)
    | DriveDelete(driveFileId: string)
    | DeleteRow(title: string)
    | Commit
    | CloseDb

  /** The reply, what the handler did, and whether the row was removed. */
  datatype Deletion = Deletion(reply: Reply, actions: seq<Action>, removed: bool)

  /** `" ".join(context.args).strip()`. */
  function DeleteTitle(args: seq<string>): string {
    Strip(Join(args, " "))
  }

  /** The handler once the title is known: look the row up by title, active
      or not; delete the Drive file, then the row. */
  function Lookup(title: string, driveDeleteOk: bool, rows: seq<Catalogue.ImageRow>): Deletion {
    var found := Catalogue.FindByTitle(rows, title);
    if found.None? then Deletion(NotFound, [OpenDb, SelectDriveId(title)], false)
    else if !driveDeleteOk then
      Deletion(Failed, [OpenDb, SelectDriveId(title), DriveDelete(found.value.driveFileId)], false)
    else
      Deletion(Deleted(title),
               [OpenDb, SelectDriveId(title), DriveDelete(found.value.driveFileId), DeleteRow(title),
                Commit, CloseDb],
               true)
  }

  /** `delete_image` in the delete handler, on a table holding `rows`. */
  function DeleteSpec(adminId: int, senderId: int, args: seq<string>, driveDeleteOk: bool,
                      rows: seq<Catalogue.ImageRow>): Deletion {
    if senderId != adminId then Deletion(AdminOnly, [], false)
    else if |args| == 0 then Deletion(Usage, [], false)
    else Lookup(DeleteTitle(args), driveDeleteOk, rows)
  }

  /** The handler itself. */
  method AdminDelete(store: Catalogue.ImageStore, adminId: int, senderId: int, args: seq<string>,
                     driveDeleteOk: bool)
    returns (reply: Reply, actions: seq<Action>)
    requires store.Valid()
    modifies store`rows
    ensures store.Valid()
    ensures reply == DeleteSpec(adminId, senderId, args, driveDeleteOk, old(store.rows)).reply
    ensures actions == DeleteSpec(adminId, senderId, args, driveDeleteOk, old(store.rows)).actions
    ensures store.rows == if DeleteSpec(adminId, senderId, args, driveDeleteOk, old(store.rows)).removed
                          then Catalogue.Removed(old(store.rows), DeleteTitle(args))
                          else old(store.rows)
  {
    if senderId != adminId {
      return AdminOnly, [];
    }
    if |args| == 0 {
      return Usage, [];
    }
    var title := DeleteTitle(args);
    reply, actions := RemoveByTitle(store, title, driveDeleteOk);
  }

  /** The part of the handler that uses the connection. */
  method RemoveByTitle(store: Catalogue.ImageStore, title: string, driveDeleteOk: bool)
    returns (reply: Reply, actions: seq<Action>)
    requires store.Valid()
    modifies store`rows
    ensures store.Valid()
    ensures reply == Lookup(title, driveDeleteOk, old(store.rows)).reply
    ensures actions == Lookup(title, driveDeleteOk, old(store.rows)).actions
    ensures store.rows == if Lookup(title, driveDeleteOk, old(store.rows)).removed
                          then Catalogue.Removed(old(store.rows), title)
                          else old(store.rows)
  {
    actions := [OpenDb, SelectDriveId(title)];
    var found := Catalogue.FindByTitle(store.rows, title);
    if found.None? {
      return NotFound, actions;
    }
    actions := actions + [DriveDelete(found.value.driveFileId)];
    if !driveDeleteOk {
      return Failed, actions;
    }
    store.HardDelete(title);
    actions := actions + [DeleteRow(title), Commit, CloseDb];
    reply := Deleted(title);
  }

  /** A non-admin sender is turned away before the arguments are looked at
      or the database is touched; an admin without arguments gets the usage
      text, and nothing changes either way. */
  lemma GuardsFirst(adminId: int, senderId: int, args: seq<string>, driveDeleteOk: bool,
                    rows: seq<Catalogue.ImageRow>)
    ensures var d := DeleteSpec(adminId, senderId, args, driveDeleteOk, rows);
            && (d.reply == AdminOnly <==> senderId != adminId)
            && (d.reply == Usage <==> senderId == adminId && |args| == 0)
            && (d.reply == AdminOnly || d.reply == Usage <==> d.actions == [])
            && (d.reply == AdminOnly || d.reply == Usage ==> !d.removed)
  {
    var d := DeleteSpec(adminId, senderId, args, driveDeleteOk, rows);
    if senderId == adminId && |args| > 0 {
      assert d.actions[0] == OpenDb;
    }
  }

  /** When no row, active or not, has the title, the reply is "not found"
      and the table is left alone; `close()` is then never called. */
  lemma MissingTitle(title: string, driveDeleteOk: bool, rows: seq<Catalogue.ImageRow>)
    ensures var d := Lookup(title, driveDeleteOk, rows);
            && (d.reply == NotFound <==> !Catalogue.HasTitle(rows, title))
            && (d.reply == NotFound ==> !d.removed && d.actions == [OpenDb, SelectDriveId(title)])
  {
  }

  /** The Drive delete is attempted before the row is touched; when it fails
      the row stays, the reply is an error and `close()` is never called. */
  lemma DriveDeleteFirst(title: string, driveDeleteOk: bool, rows: seq<Catalogue.ImageRow>)
    requires Catalogue.HasTitle(rows, title)
    ensures var d := Lookup(title, driveDeleteOk, rows);
            var id := Catalogue.FindByTitle(rows, title).value.driveFileId;
            && d.actions[..3] == [OpenDb, SelectDriveId(title), DriveDelete(id)]
            && (d.removed <==> driveDeleteOk)
            && (!driveDeleteOk ==> d.reply == Failed && |d.actions| == 3)
            && (driveDeleteOk ==> d.reply == Deleted(title) && d.actions[3..] == [DeleteRow(title), Commit, CloseDb])
  {
  }

  /** A successful delete removes the row with the title entirely, keeps
      every other row, and with unique titles shrinks the table by one. */
  lemma HardDeleteEffect(title: string, rows: seq<Catalogue.ImageRow>)
    requires Catalogue.TitlesUnique(rows) && Catalogue.HasTitle(rows, title)
    ensures Lookup(title, true, rows).removed
    ensures forall x :: x in Catalogue.Removed(rows, title) <==> x in rows && x.title != title
    ensures |Catalogue.Removed(rows, title)| == |rows| - 1
  {
    Catalogue.RemovedCount(rows, title);
  }
}
