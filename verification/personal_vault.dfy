/**
 * The client half of the vault (frontend/src/components/PersonalVault.js):
 * the comma-separated tag field, the upload dialog's form state and the
 * list the page keeps after a delete. Network replies are parameters.
 */
module PersonalVault {
  import opened Types
  import opened Collections
  import opened ServerState
  import Text
  import SharedFiles
  import Vault

  /** A tag as the field produces it: non-empty, trimmed, without a comma. */
  predicate WellFormedTag(t: string) {
    t != "" && ',' !in t && Text.Trimmed(t)
  }

  predicate WellFormedTags(ts: seq<string>) {
    forall i :: 0 <= i < |ts| ==> WellFormedTag(ts[i])
  }

  function TrimAll(parts: seq<string>): (r: seq<string>)
    ensures |r| == |parts|
    ensures forall i :: 0 <= i < |r| ==> r[i] == Text.Trim(parts[i])
  {
    Map(parts, Text.Trim)
  }

  function NonEmpty(t: string): bool { t != "" }

  /** Trimmed and free of commas: what each trimmed piece of a split is. */
  function CleanPiece(t: string): bool { ',' !in t && Text.Trimmed(t) }

  lemma TrimmedPiecesClean(pieces: seq<string>)
    requires forall i :: 0 <= i < |pieces| ==> ',' !in pieces[i]
    ensures forall i :: 0 <= i < |TrimAll(pieces)| ==> CleanPiece(TrimAll(pieces)[i])
  {
    forall i | 0 <= i < |pieces|
      ensures CleanPiece(TrimAll(pieces)[i])
    {
      var t := Text.Trim(pieces[i]);
      assert forall c :: c in t ==> c in pieces[i];
    }
  }

  /** `value.split(',').map(tag => tag.trim()).filter(Boolean)`. */
  function ParseTags(text: string): (tags: seq<string>)
    ensures WellFormedTags(tags)
  {
    var trimmed := TrimAll(Text.Split(text, ','));
    TrimmedPiecesClean(Text.Split(text, ','));
    FilterKeeps(trimmed, NonEmpty, CleanPiece);
    Filter(trimmed, NonEmpty)
  }

  /** `tags.join(', ')`, the text the field displays. */
  function FormatTags(tags: seq<string>): string {
    Text.Join(tags, ", ")
  }

  lemma TrimAllConcat(a: seq<string>, b: seq<string>)
    ensures TrimAll(a + b) == TrimAll(a) + TrimAll(b)
  {
    MapConcat(a, b, Text.Trim);
  }

  /** Parsing at a comma parses each side on its own. */
  lemma ParseConcat(a: string, b: string)
    ensures ParseTags(a + [','] + b) == ParseTags(a) + ParseTags(b)
  {
    var sa, sb := Text.Split(a, ','), Text.Split(b, ',');
    Text.SplitConcat(a, b, ',');
    TrimAllConcat(sa, sb);
    FilterConcat(TrimAll(sa), TrimAll(sb), NonEmpty);
  }

  /** The blank `join(', ')` puts after each comma does not reach a tag. */
  lemma ParseIgnoresLeadingBlank(x: string)
    ensures ParseTags(" " + x) == ParseTags(x)
  {
    var rest := Text.Split(x, ',');
    assert (" " + x)[1..] == x;
    var first := [" " + rest[0]];
    assert Text.Split(" " + x, ',') == first + rest[1..];
    assert rest == [rest[0]] + rest[1..];
    TrimAllConcat(first, rest[1..]);
    TrimAllConcat([rest[0]], rest[1..]);
    Text.TrimIgnoresLeadingBlank(rest[0]);
    assert TrimAll(first) == TrimAll([rest[0]]);
  }

  lemma ParseSingle(t: string)
    requires WellFormedTag(t)
    ensures ParseTags(t) == [t]
  {
    Text.SplitWithoutSeparator(t, ',');
    Text.TrimOfTrimmed(t);
    assert TrimAll([t]) == [t];
  }

  lemma FormatCons(ts: seq<string>)
    requires |ts| >= 2
    ensures FormatTags(ts) == ts[0] + [','] + (" " + FormatTags(ts[1..]))
  {
    var tail := FormatTags(ts[1..]);
    assert FormatTags(ts) == ts[0] + ", " + tail;
    assert ", " + tail == [','] + (" " + tail);
    assert ts[0] + ", " + tail == ts[0] + (", " + tail);
  }

  lemma ParseEmpty()
    ensures ParseTags("") == []
  {
    assert Text.Split("", ',') == [""];
    assert Text.Trim("") == "";
    assert TrimAll([""]) == [""];
  }

  /** Displaying well-formed tags and parsing the display gives the same tags back. */
  lemma {:induction false} ParseFormat(ts: seq<string>)
    requires WellFormedTags(ts)
    ensures ParseTags(FormatTags(ts)) == ts
  {
    if |ts| == 0 {
      ParseEmpty();
    } else if |ts| == 1 {
      ParseSingle(ts[0]);
    } else {
      var tail := FormatTags(ts[1..]);
      assert WellFormedTags(ts[1..]) by {
        forall i | 0 <= i < |ts[1..]|
          ensures WellFormedTag(ts[1..][i])
        {
          assert ts[1..][i] == ts[i + 1];
        }
      }
      ParseFormat(ts[1..]);
      ParseIgnoresLeadingBlank(tail);
      ParseSingle(ts[0]);
      FormatCons(ts);
      ParseConcat(ts[0], " " + tail);
      assert ParseTags(FormatTags(ts)) == [ts[0]] + ts[1..];
      assert [ts[0]] + ts[1..] == ts;
    }
  }

  /** What the field shows is a fixed point: re-parsing it changes nothing. */
  lemma ParseIsIdempotent(text: string)
    ensures ParseTags(FormatTags(ParseTags(text))) == ParseTags(text)
  {
    ParseFormat(ParseTags(text));
  }

  /**
   * One keystroke in the field as written: the field displays the joined
   * tags, and its change handler replaces the tags by the parse of the new
   * text.
   */
  function TypeKeyAsWritten(tags: seq<string>, key: char): (r: seq<string>)
    ensures WellFormedTags(r)
  {
    ParseTags(FormatTags(tags) + [key])
  }

  /** A comma typed after the tags is gone as soon as it is typed. */
  lemma TypedCommaIsLost(ts: seq<string>)
    requires WellFormedTags(ts)
    ensures TypeKeyAsWritten(ts, ',') == ts
  {
    var shown := FormatTags(ts);
    ParseConcat(shown, "");
    assert shown + [','] + "" == shown + [','];
    ParseEmpty();
    ParseFormat(ts);
    assert ParseTags(shown + [',']) == ts + [];
    assert ts + [] == ts;
  }

  /** Typing `,b` after the tag `a` yields the single tag `ab`, not `a` and `b`. */
  lemma SecondTagCannotBeTyped()
    ensures TypeKeyAsWritten(TypeKeyAsWritten(["a"], ','), 'b') == ["ab"]
  {
    assert WellFormedTag("a");
    TypedCommaIsLost(["a"]);
    assert FormatTags(["a"]) + ['b'] == "ab";
    assert WellFormedTag("ab");
    ParseSingle("ab");
  }

  /**
   * The field keeping its raw text and parsing only when the form is sent:
   * a comma followed by more text adds the tags of that text.
   */
  lemma ParseAfterComma(text: string, keys: string)
    requires keys != [] && keys[0] == ','
    ensures ParseTags(text + keys) == ParseTags(text) + ParseTags(keys[1..])
  {
    assert keys == [','] + keys[1..];
    assert text + keys == text + [','] + keys[1..];
    ParseConcat(text, keys[1..]);
  }

  function EditTagsText(text: string, keys: string): (r: string)
    ensures keys != [] && keys[0] == ',' ==> ParseTags(r) == ParseTags(text) + ParseTags(keys[1..])
  {
    if keys != [] && keys[0] == ',' then
      ParseAfterComma(text, keys);
      text + keys
    else text + keys
  }

  /** With the raw text kept, typing `, t` after the shown tags appends `t`. */
  lemma CorrectedTypingAddsTag(ts: seq<string>, t: string)
    requires WellFormedTags(ts) && WellFormedTag(t)
    ensures ParseTags(EditTagsText(FormatTags(ts), ", " + t)) == ts + [t]
  {
    assert (", " + t)[1..] == " " + t;
    ParseFormat(ts);
    ParseIgnoresLeadingBlank(t);
    ParseSingle(t);
  }

  /** The upload dialog's fields; `tagsText` is the tag field's raw text. */
  datatype FileDetails = FileDetails(category: string, description: string, tagsText: string)

  const DEFAULT_DETAILS := FileDetails("other", "", "")

  /** The five `MenuItem` values of the category select. */
  const CATEGORY_OPTIONS: seq<string> := ["credentials", "research", "academic", "exam", "other"]

  function Tags(d: FileDetails): seq<string> {
    ParseTags(d.tagsText)
  }

  /**
   * The `FormData` the dialog posts for a category, a description and the
   * tags (`Tags(details)`): all three fields are always present.
   */
  function UploadForm(category: string, description: string, tags: seq<string>): (f: Vault.VaultForm)
    ensures f.category == Some(category) && f.description == Some(description)
    ensures f.tags == Vault.TagsJson(tags)
  {
    Vault.VaultForm(Some(category), Some(description), Vault.TagsJson(tags))
  }

  lemma MenuCategoryParses(c: string)
    requires c in CATEGORY_OPTIONS
    ensures c != "" && ParseCategory(c).Some?
  {
    var k :| 0 <= k < |CATEGORY_OPTIONS| && CATEGORY_OPTIONS[k] == c;
    if k == 0 {} else if k == 1 {} else if k == 2 {} else if k == 3 {} else {}
  }

  /** Any category the select offers passes the server's validation, the tags intact. */
  lemma MenuFormsAreAccepted(category: string, description: string, tags: seq<string>)
    requires category in CATEGORY_OPTIONS
    ensures Vault.ValidateForm(UploadForm(category, description, tags)) == Ok((ParseCategory(category).value, tags))
  {
    MenuCategoryParses(category);
  }

  /** The page state the handlers touch. */
  datatype VaultView = VaultView(
    items: seq<VaultItem>,
    details: FileDetails,
    selected: Option<SharedFiles.Upload>,
    uploadOpen: bool,
    uploading: bool,
    error: Option<string>)

  const UPLOAD_ERROR := "Failed to upload to vault"
  const LIST_ERROR := "Failed to access vault"
  const DELETE_ERROR := "Failed to delete from vault"

  /**
   * `handleUpload`: `responseOk` is `response.ok` of the POST, `refreshed`
   * the list `fetchVaultItems` then receives (`None` when that fetch fails,
   * which it reports itself).
   */
  function HandleUpload(v: VaultView, responseOk: bool, refreshed: Option<seq<VaultItem>>): (r: VaultView)
    ensures v.selected.None? ==> r == v
    ensures !r.uploading || r == v
    ensures v.selected.Some? && responseOk ==>
      && r.details == DEFAULT_DETAILS && r.selected.None? && !r.uploadOpen
      && r.items == (if refreshed.Some? then refreshed.value else v.items)
      && r.error == (if refreshed.Some? then v.error else Some(LIST_ERROR))
    ensures v.selected.Some? && !responseOk ==>
      r == v.(uploading := false, error := Some(UPLOAD_ERROR))
  {
    if v.selected.None? then v
    else if !responseOk then v.(uploading := false, error := Some(UPLOAD_ERROR))
    else
      var listed := match refreshed
        case Some(items) => v.(items := items)
        case None => v.(error := Some(LIST_ERROR));
      listed.(uploadOpen := false, selected := None, details := DEFAULT_DETAILS, uploading := false)
  }

  /** After a successful upload there is no file left to send: a second click does nothing. */
  lemma UploadClearsSelection(v: VaultView, refreshed: Option<seq<VaultItem>>, ok2: bool, refreshed2: Option<seq<VaultItem>>)
    requires v.selected.Some?
    ensures var once := HandleUpload(v, true, refreshed);
      HandleUpload(once, ok2, refreshed2) == once && Tags(once.details) == []
  {
    assert Text.Split("", ',') == [""];
    assert TrimAll([""]) == [""];
  }

  function HasOtherId(itemId: Id): VaultItem -> bool {
    (v: VaultItem) => v.id != itemId
  }

  /** `handleDelete`: on success the page drops every item with the id. */
  function HandleDelete(v: VaultView, itemId: Id, responseOk: bool): (r: VaultView)
    ensures !responseOk ==> r == v.(error := Some(DELETE_ERROR))
    ensures responseOk ==> r.(items := v.items) == v
    ensures responseOk ==> forall x :: multiset(r.items)[x] == if x.id == itemId then 0 else multiset(v.items)[x]
  {
    FilterCounts(v.items, HasOtherId(itemId));
    if responseOk then v.(items := Filter(v.items, HasOtherId(itemId)))
    else v.(error := Some(DELETE_ERROR))
  }

  predicate UniqueIds(items: seq<VaultItem>) {
    forall i, j :: 0 <= i < j < |items| ==> items[i].id != items[j].id
  }

  /**
   * With distinct ids the page's list after a delete is the old list with
   * exactly that one item cut out, the rest in order; the same list the
   * server keeps after removing the item.
   */
  lemma {:induction false} DeleteCutsOneItem(v: VaultView, k: nat)
    requires k < |v.items| && UniqueIds(v.items)
    ensures HandleDelete(v, v.items[k].id, true).items == v.items[..k] + v.items[k + 1..]
    ensures HandleDelete(v, v.items[k].id, true).items == SharedFiles.RemoveAt(v.items, k)
  {
    var s := v.items;
    var p := HasOtherId(s[k].id);
    forall j | 0 <= j < |s| && j != k
      ensures p(s[j])
    {
      if j < k { assert s[j].id != s[k].id; } else { assert s[k].id != s[j].id; }
    }
    FilterCutsOne(s, k, p);
  }
}
