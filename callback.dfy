/**
 * The "Get Drive Link" button: the search, text and inline handlers put
 * `"link_" + title` into a button's callback data, and
 * `drive_bot/handlers/button_handler.py` turns the data back into a title,
 * looks the title up and edits the message caption to show the share link.
 */
module ButtonHandler {
  import opened Strings
  import Catalogue
  import UploadHandler

  const LinkPrefix: string := "link_"

  const NotFoundCaption: string := "\U{274C} Link not found."

  /** The decoding the button handler evidently intends: drop the leading
      `link_` and keep the rest of the data as it is. */
  function DecodeFixed(data: string): (title: string)
    ensures LinkPrefix <= data ==> data == LinkPrefix + title
    ensures !(LinkPrefix <= data) ==> title == data
  {
    if LinkPrefix <= data then data[|LinkPrefix|..] else data
  }

  /** `f"link_{title}"`, the callback data of a button. */
  function EncodeCallback(title: string): (data: string)
    ensures LinkPrefix <= data && |data| == |LinkPrefix| + |title|
    ensures DecodeFixed(data) == title
  {
    LinkPrefix + title
  }

  /** `query.data.replace("link_", "")` as written: every occurrence of
      `link_` is removed, not only the leading one. */
  function DecodeCallback(data: string): (title: string)
    ensures |title| <= |data|
  {
    RemoveAll(data, LinkPrefix)
  }

  /** For a title without `link_` in it the button round-trips. */
  lemma DecodeEncode(title: string)
    requires !Contains(title, LinkPrefix)
    ensures DecodeCallback(EncodeCallback(title)) == title
  {
    var data := EncodeCallback(title);
    assert data[|LinkPrefix|..] == title;
    RemoveAllAbsent(title, LinkPrefix);
  }

  /** For a title with `link_` inside it, the decoded title is shorter than
      the title, so the lookup is for another title. */
  lemma DecodeEncodeLoses(title: string)
    requires Contains(title, LinkPrefix)
    ensures |DecodeCallback(EncodeCallback(title))| < |title|
    ensures DecodeCallback(EncodeCallback(title)) != title
  {
    var data := EncodeCallback(title);
    assert data[|LinkPrefix|..] == title;
    RemoveAllPresentShrinks(title, LinkPrefix);
  }

  /** Such titles get past the upload validator: `xlink_y` is a valid title,
      and its button looks up `xy`. */
  lemma ValidTitleDecodedWrongly()
    ensures UploadHandler.IsValidTitle("xlink_y")
    ensures DecodeCallback(EncodeCallback("xlink_y")) == "xy"
  {
    var t := "xlink_y";
    assert UploadHandler.AllTitleChars("y");
    assert UploadHandler.AllTitleChars(t[6..]);
    assert UploadHandler.AllTitleChars(t);
    assert EncodeCallback(t)[5..] == t;
    assert t[1..] == "link_y" && !(LinkPrefix <= t);
    assert RemoveAll("y", LinkPrefix) == "y" by {
      assert !(LinkPrefix <= "y");
      assert RemoveAll("", LinkPrefix) == "";
      assert "y"[1..] == "";
    }
    assert "link_y"[5..] == "y";
    assert RemoveAll("link_y", LinkPrefix) == "y";
    assert RemoveAll(t, LinkPrefix) == "x" + "y";
  }

  /** The fixed decoding round-trips every title, and it parts from the
      decoding as written exactly on titles with `link_` in them. */
  lemma DecodeFixedEncode(title: string)
    ensures DecodeFixed(EncodeCallback(title)) == title
    ensures DecodeFixed(EncodeCallback(title)) != DecodeCallback(EncodeCallback(title)) <==>
              Contains(title, LinkPrefix)
  {
    if Contains(title, LinkPrefix) {
      DecodeEncodeLoses(title);
    } else {
      DecodeEncode(title);
    }
  }

  /** `f"📌 {title}\n🔗 {share_link}"`. */
  function LinkCaption(title: string, shareLink: string): (caption: string)
    ensures Contains(caption, title) && Contains(caption, shareLink)
    ensures caption != NotFoundCaption
  {
    var head := "\U{1F4CC} ";
    var mid := "\n\U{1F517} ";
    ContainsInfix(head, title, mid + shareLink);
    ContainsInfix(head + title + mid, shareLink, "");
    assert head + title + (mid + shareLink) == head + title + mid + shareLink;
    assert head + title + mid + shareLink + "" == head + title + mid + shareLink;
    assert (head + title + mid + shareLink)[0] != NotFoundCaption[0];
    head + title + mid + shareLink
  }

  /** The caption the button leaves on the message for callback data `data`
      against a table holding `rows`: the lookup matches the title in any
      row, soft-deleted or not. */
  function CallbackCaption(rows: seq<Catalogue.ImageRow>, data: string): string {
    var title := DecodeCallback(data);
    var found := Catalogue.FindByTitle(rows, title);
    if found.None? then NotFoundCaption else LinkCaption(title, found.value.shareLink)
  }

  /** `button_callback`: decode the title, select its share link and edit
      the caption. */
  method ButtonCallback(store: Catalogue.ImageStore, data: string) returns (caption: string)
    requires store.Valid()
    ensures caption == CallbackCaption(store.rows, data)
    ensures caption == NotFoundCaption <==> !Catalogue.HasTitle(store.rows, DecodeCallback(data))
    ensures forall x :: x in store.rows && x.title == DecodeCallback(data) ==>
              caption == LinkCaption(x.title, x.shareLink) && Contains(caption, x.shareLink)
  {
    var title := DecodeCallback(data);
    var found := Catalogue.FindByTitle(store.rows, title);
    if found.None? {
      caption := NotFoundCaption;
      return;
    }
    caption := LinkCaption(title, found.value.shareLink);
    Catalogue.WellFormedTitlesUnique(store.rows, store.nextId);
    forall x | x in store.rows && x.title == title ensures x == found.value {
      var i :| 0 <= i < |store.rows| && store.rows[i] == x;
      Catalogue.FindByTitleUnique(store.rows, title, i);
    }
  }

  /** A button whose title is not mangled by decoding serves the share link
      of the row with that title, even after the image was soft-deleted. */
  lemma ButtonServesRow(rows: seq<Catalogue.ImageRow>, i: nat)
    requires Catalogue.TitlesUnique(rows) && i < |rows|
    requires !Contains(rows[i].title, LinkPrefix)
    ensures CallbackCaption(rows, EncodeCallback(rows[i].title)) == LinkCaption(rows[i].title, rows[i].shareLink)
  {
    DecodeEncode(rows[i].title);
    Catalogue.FindByTitleUnique(rows, rows[i].title, i);
  }

  /** With rows titled `xy` and `xlink_y`, the button of `xlink_y` serves the
      share link of `xy`. */
  lemma WrongLinkServed(a: Catalogue.ImageRow, b: Catalogue.ImageRow)
    requires a.title == "xy" && b.title == "xlink_y"
    ensures CallbackCaption([a, b], EncodeCallback(b.title)) == LinkCaption("xy", a.shareLink)
  {
    ValidTitleDecodedWrongly();
  }
}
