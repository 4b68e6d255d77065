/**
 * The `/upload` handler of `drive_bot/handlers/upload_handler.py`: the title
 * validator, the choice of title between command arguments and caption, and
 * the chain of guards that ends in the Drive upload and the INSERT. The
 * Telegram download and the two Drive calls are supplied as outcomes; the
 * handler's effects on the connection and on Drive are returned as a trace.
 */
module UploadHandler {
  import opened Wrappers
  import opened Strings
  import Catalogue

  /** Longest title `is_valid_title` accepts. */
  const MaxTitleLength: nat := 100

  /** `c.isalnum()` on ASCII. */
  predicate IsAsciiAlnum(c: char) {
    ('a' <= c <= 'z') || ('A' <= c <= 'Z') || ('0' <= c <= '9')
  }

  /** A character a title may contain: alphanumeric or one of ` -_.,`. */
  predicate IsTitleChar(c: char) {
    IsAsciiAlnum(c) || c == ' ' || c == '-' || c == '_' || c == '.' || c == ','
  }

  /** `all(c.isalnum() or c in ' -_.,' for c in s)`. */
  function AllTitleChars(s: string): (b: bool)
    ensures b <==> forall i :: 0 <= i < |s| ==> IsTitleChar(s[i])
  {
    if s == [] then true else IsTitleChar(s[0]) && AllTitleChars(s[1..])
  }

  /** `is_valid_title`. */
  function IsValidTitle(title: string): bool {
    if |title| == 0 || |title| > MaxTitleLength then false else AllTitleChars(title)
  }

  /** The empty title and titles over 100 characters are refused; any other
      title is accepted exactly when each of its characters is allowed. */
  lemma IsValidTitleIff(title: string)
    ensures |title| == 0 || |title| > MaxTitleLength ==> !IsValidTitle(title)
    ensures 0 < |title| <= MaxTitleLength ==>
              (IsValidTitle(title) <==> forall i :: 0 <= i < |title| ==> IsTitleChar(title[i]))
  {
  }

  /** The title of an upload: the command arguments joined by single spaces
      and stripped when there are any; otherwise the stripped caption when
      it is non-empty; otherwise none. */
  function ExtractTitle(args: seq<string>, caption: Option<string>): (t: Option<string>)
    ensures t.Some? ==> Strip(t.value) == t.value
  {
    if |args| > 0 then
      StripIdempotent(Join(args, " "));
      Some(Strip(Join(args, " ")))
    else if caption.Some? && caption.value != "" then
      StripIdempotent(caption.value);
      Some(Strip(caption.value))
    else None
  }

  /** Command arguments take precedence over the caption, which is used only
      when there are none; with neither there is no title. */
  lemma ExtractTitleChoice(args: seq<string>, caption: Option<string>)
    ensures |args| > 0 ==> ExtractTitle(args, caption) == ExtractTitle(args, None)
    ensures |args| == 1 ==> ExtractTitle(args, caption) == Some(Strip(args[0]))
    ensures |args| == 0 ==> (ExtractTitle(args, caption).None? <==> caption.None? || caption.value == "")
    ensures |args| == 0 && caption.Some? && caption.value != "" ==>
              ExtractTitle(args, caption) == Some(Strip(caption.value))
  {
  }

  /** What the upload message and its command carry. `photoFileIds` lists the
      sizes Telegram offers, smallest first. */
  datatype Request = Request(senderId: int, photoFileIds: seq<string>, args: seq<string>,
                             caption: Option<string>)

  /** The fields of the file `files().create` returns; either link may be
      missing from the response. */
  datatype DriveFile = DriveFile(id: string, webViewLink: Option<string>, webContentLink: Option<string>)

  /** How the remote calls turn out: whether the download from Telegram
      works, the file Drive creates (none when the call raises), and whether
      making it public works. */
  datatype Remote = Remote(downloadOk: bool, created: Option<DriveFile>, permissionOk: bool)

  datatype Reply =
    | NotAdmin                                 // "Only admin can upload images."
    | NoPhoto                                  // "Please send an image file."
    | NoTitle                                  // how to give a title
    | InvalidTitle                             // the title rules
    | TitleExists(title: string)               // "Title '...' already exists."
    | Uploaded(title: string, shareLink: string)
    | DatabaseFailure                          // a sqlite3.Error
    | UploadFailed                             // any other exception

  /** What the handler does to the database and to Drive. */
  datatype Action =
    | OpenDb
    | CheckTitle(title: string)
    | Download(telegramFileId: string)
    | CreateDriveFile(name: string)
    | SetPublic(driveFileId: string)
    | InsertRow(title: string)
    | Commit
    | CloseDb

  /** The handler's reply, what it did, and the row it inserted, if any. */
  datatype Upload = Upload(reply: Reply, actions: seq<Action>, inserted: Option<Catalogue.NewImage>)

  /** The columns the handler's INSERT supplies for a Drive file with a web
      view link; the size, uploader and last access stay NULL. */
  function NewRow(title: string, telegramFileId: string, f: DriveFile): Catalogue.NewImage
    requires f.webViewLink.Some?
  {
    Catalogue.NewImage(title, telegramFileId, f.id, f.webViewLink.value,
                       if f.webContentLink.Some? then f.webContentLink.value else "",
                       None, None, None)
  }

  /** The handler from the Drive upload on, once the connection is open and
      the title is known to be new. */
  function AfterCheck(title: string, photo: string, remote: Remote, rows: seq<Catalogue.ImageRow>): Upload {
    if !remote.downloadOk then Upload(UploadFailed, [Download(photo), CloseDb], None)
    else if remote.created.None? then
      Upload(UploadFailed, [Download(photo), CreateDriveFile(title + ".jpg"), CloseDb], None)
    else
      var f := remote.created.value;
      var upto := [Download(photo), CreateDriveFile(title + ".jpg"), SetPublic(f.id)];
      if !remote.permissionOk || f.webViewLink.None? then Upload(UploadFailed, upto + [CloseDb], None)
      else if Catalogue.HasDriveId(rows, f.id) then
        Upload(DatabaseFailure, upto + [InsertRow(title), CloseDb], None)
      else
        Upload(Uploaded(title, f.webViewLink.value), upto + [InsertRow(title), Commit, CloseDb],
               Some(NewRow(title, photo, f)))
  }

  /** The handler from opening the connection on, for a valid title and the
      largest photo size `photo`. */
  function Stored(title: string, photo: string, remote: Remote, rows: seq<Catalogue.ImageRow>): Upload {
    if Catalogue.HasTitle(rows, title) then
      Upload(TitleExists(title), [OpenDb, CheckTitle(title), CloseDb], None)
    else
      var rest := AfterCheck(title, photo, remote, rows);
      Upload(rest.reply, [OpenDb, CheckTitle(title)] + rest.actions, rest.inserted)
  }

  /** `upload_image` on a table holding `rows`, once the title has been
      extracted from the message. */
  function Handle(adminId: int, req: Request, title: Option<string>, remote: Remote,
                  rows: seq<Catalogue.ImageRow>): Upload {
    if req.senderId != adminId then Upload(NotAdmin, [], None)
    else if |req.photoFileIds| == 0 then Upload(NoPhoto, [], None)
    else if title.None? || title.value == "" then Upload(NoTitle, [], None)
    else if !IsValidTitle(title.value) then Upload(InvalidTitle, [], None)
    else Stored(title.value, req.photoFileIds[|req.photoFileIds| - 1], remote, rows)
  }

  /** `upload_image` on a table holding `rows`. */
  function UploadSpec(adminId: int, req: Request, remote: Remote, rows: seq<Catalogue.ImageRow>): Upload {
    Handle(adminId, req, ExtractTitle(req.args, req.caption), remote, rows)
  }

  /** The handler itself. */
  method UploadImage(store: Catalogue.ImageStore, adminId: int, req: Request, remote: Remote, now: nat)
    returns (reply: Reply, actions: seq<Action>)
    requires store.Valid()
    modifies store`rows, store`nextId
    ensures store.Valid()
    ensures reply == UploadSpec(adminId, req, remote, old(store.rows)).reply
    ensures actions == UploadSpec(adminId, req, remote, old(store.rows)).actions
    ensures UploadSpec(adminId, req, remote, old(store.rows)).inserted.None? ==>
              store.rows == old(store.rows) && store.nextId == old(store.nextId)
    ensures var ins := UploadSpec(adminId, req, remote, old(store.rows)).inserted;
            ins.Some? ==> store.rows == old(store.rows) + [Catalogue.RowOf(old(store.nextId), ins.value, now)]
                          && store.nextId == old(store.nextId) + 1
  {
    if req.senderId != adminId {
      return NotAdmin, [];
    }
    if |req.photoFileIds| == 0 {
      return NoPhoto, [];
    }
    var photo := req.photoFileIds[|req.photoFileIds| - 1];
    var title := ExtractTitle(req.args, req.caption);
    if title.None? || title.value == "" {
      return NoTitle, [];
    }
    if !IsValidTitle(title.value) {
      return InvalidTitle, [];
    }
    reply, actions := StoreUpload(store, title.value, photo, remote, now);
  }

  /** The part of the handler that uses the connection: the duplicate check,
      the download, the two Drive calls, the INSERT and the commit. */
  method StoreUpload(store: Catalogue.ImageStore, t: string, photo: string, remote: Remote, now: nat)
    returns (reply: Reply, actions: seq<Action>)
    requires store.Valid()
    modifies store`rows, store`nextId
    ensures store.Valid()
    ensures reply == Stored(t, photo, remote, old(store.rows)).reply
    ensures actions == Stored(t, photo, remote, old(store.rows)).actions
    ensures Stored(t, photo, remote, old(store.rows)).inserted.None? ==>
              store.rows == old(store.rows) && store.nextId == old(store.nextId)
    ensures var ins := Stored(t, photo, remote, old(store.rows)).inserted;
            ins.Some? ==> store.rows == old(store.rows) + [Catalogue.RowOf(old(store.nextId), ins.value, now)]
                          && store.nextId == old(store.nextId) + 1
  {
    actions := [OpenDb, CheckTitle(t)];
    if Catalogue.HasTitle(store.rows, t) {
      return TitleExists(t), actions + [CloseDb];
    }
    actions := actions + [Download(photo)];
    if !remote.downloadOk {
      return UploadFailed, actions + [CloseDb];
    }
    actions := actions + [CreateDriveFile(t + ".jpg")];
    if remote.created.None? {
      return UploadFailed, actions + [CloseDb];
    }
    var f := remote.created.value;
    actions := actions + [SetPublic(f.id)];
    if !remote.permissionOk || f.webViewLink.None? {
      return UploadFailed, actions + [CloseDb];
    }
    actions := actions + [InsertRow(t)];
    var ok := store.Insert(NewRow(t, photo, f), now);
    if !ok {
      return DatabaseFailure, actions + [CloseDb];
    }
    reply := Uploaded(t, f.webViewLink.value);
    actions := actions + [Commit, CloseDb];
  }

  /** The guards run in the order sender, photo, title present, title valid,
      and each of them answers before the database is opened. */
  lemma GuardsBeforeDatabase(adminId: int, req: Request, title: Option<string>, remote: Remote,
                             rows: seq<Catalogue.ImageRow>)
    ensures var u := Handle(adminId, req, title, remote, rows);
            && (u.reply == NotAdmin <==> req.senderId != adminId)
            && (u.reply == NoPhoto <==> req.senderId == adminId && |req.photoFileIds| == 0)
            && (u.reply == NoTitle <==>
                  req.senderId == adminId && |req.photoFileIds| > 0 && (title.None? || title.value == ""))
            && (u.reply == InvalidTitle <==>
                  req.senderId == adminId && |req.photoFileIds| > 0 && title.Some? && title.value != ""
                  && !IsValidTitle(title.value))
            && ((u.reply.NotAdmin? || u.reply.NoPhoto? || u.reply.NoTitle? || u.reply.InvalidTitle?) <==>
                  OpenDb !in u.actions)
            && ((u.reply.NotAdmin? || u.reply.NoPhoto? || u.reply.NoTitle? || u.reply.InvalidTitle?) ==>
                  u.actions == [] && u.inserted.None?)
  {
    var u := Handle(adminId, req, title, remote, rows);
    if u.actions != [] {
      assert u.actions[0] == OpenDb;
    }
  }

  /** Any row with the title, active or soft-deleted, stops the upload
      before the download or any Drive call. */
  lemma ExistingTitleStopsUpload(adminId: int, req: Request, title: string, remote: Remote,
                                 rows: seq<Catalogue.ImageRow>)
    requires req.senderId == adminId && |req.photoFileIds| > 0
    requires IsValidTitle(title) && Catalogue.HasTitle(rows, title)
    ensures var u := Handle(adminId, req, Some(title), remote, rows);
            && u.reply == TitleExists(title)
            && u.inserted.None?
            && u.actions == [OpenDb, CheckTitle(title), CloseDb]
  {
  }

  /** A row is inserted only after the Drive file was created and made
      public, under the name `title + ".jpg"`; it carries the title, the
      largest photo size, the Drive id, the web view link as share link and
      the content link or "" as direct link. */
  lemma InsertOnlyAfterDrive(adminId: int, req: Request, title: Option<string>, remote: Remote,
                             rows: seq<Catalogue.ImageRow>)
    requires Handle(adminId, req, title, remote, rows).inserted.Some?
    ensures var u := Handle(adminId, req, title, remote, rows);
            var n := u.inserted.value;
            && remote.downloadOk && remote.created.Some? && remote.permissionOk
            && u.reply == Uploaded(n.title, n.shareLink)
            && title == Some(n.title) && IsValidTitle(n.title)
            && !Catalogue.HasTitle(rows, n.title) && !Catalogue.HasDriveId(rows, n.driveFileId)
            && n.telegramFileId == req.photoFileIds[|req.photoFileIds| - 1]
            && n.driveFileId == remote.created.value.id
            && Some(n.shareLink) == remote.created.value.webViewLink
            && n.directLink == (if remote.created.value.webContentLink.Some?
                                then remote.created.value.webContentLink.value else "")
            && u.actions == [OpenDb, CheckTitle(n.title), Download(n.telegramFileId),
                             CreateDriveFile(n.title + ".jpg"), SetPublic(n.driveFileId),
                             InsertRow(n.title), Commit, CloseDb]
  {
  }

  /** Only a successful upload changes the table: every other reply leaves
      it as it was (a Drive file created before a later failure is not
      removed). */
  lemma OnlySuccessInserts(adminId: int, req: Request, title: Option<string>, remote: Remote,
                           rows: seq<Catalogue.ImageRow>)
    ensures var u := Handle(adminId, req, title, remote, rows);
            u.inserted.Some? <==> u.reply.Uploaded?
  {
  }

  /** Whenever the connection is opened it is closed, last. */
  lemma ConnectionClosed(adminId: int, req: Request, title: Option<string>, remote: Remote,
                         rows: seq<Catalogue.ImageRow>)
    ensures var a := Handle(adminId, req, title, remote, rows).actions;
            OpenDb in a ==> a[0] == OpenDb && a[|a| - 1] == CloseDb
  {
  }
}
