/**
 * The personal-vault routes of server/server.js: `POST /api/vault/upload`,
 * `GET /api/vault/files`, `GET /api/vault/download/:filename` and
 * `DELETE /api/vault/:itemId`.
 *
 * Both upload and download compute a per-user `strongKey`, and neither uses
 * it: the blob is encrypted and decrypted under `Cipher.EncryptionKey` like
 * every shared file. The download and delete routes write their security
 * events inline with `user: req.user.name`; when that save throws, the
 * handler's catch writes an error event in a second save and answers 500,
 * keeping whatever the handler had already changed. When the catch's own
 * save throws, the request is left without a reply (`NoReply`).
 */
module Vault {
  import opened Types
  import opened Collections
  import opened ServerState
  import Text
  import Hex
  import Cipher
  import SharedFiles
  import ObjectIds

  /** The `tags` form field: absent, a JSON array of strings, or text `JSON.parse` rejects with `error`. */
  datatype TagsField = NoTags | TagsJson(tags: seq<string>) | MalformedJson(error: string)

  /** The multipart body beside the file; an absent field is `None` (or `NoTags`). */
  datatype VaultForm = VaultForm(category: Option<string>, description: Option<string>, tags: TagsField)

  /** `vault-${Date.now()}-${originalname}`. */
  function VaultFilename(now: nat, originalname: string): (name: string)
    ensures |name| > 6 && name[..6] == "vault-"
  {
    "vault-" + Text.Decimal(now) + "-" + originalname
  }

  /** `req.body.category || 'other'`: the string Mongoose will check against the enum. */
  function CategoryText(form: VaultForm): (s: string)
    ensures s != ""
    ensures form.category.Some? && form.category.value != "" ==> s == form.category.value
  {
    if form.category.Some? && form.category.value != "" then form.category.value else "other"
  }

  /** Mongoose's message for a `category` outside the enum. */
  function CategoryError(s: string): string {
    "VaultItem validation failed: category: `" + s + "` is not a valid enum value for path `category`."
  }

  /**
   * Building and saving the `VaultItem` document: `JSON.parse` of the tags
   * runs first, the enum check on save second. `Fail` carries `error.message`.
   */
  function ValidateForm(form: VaultForm): (r: Outcome<(Category, seq<string>)>)
    ensures r.Ok? <==> !form.tags.MalformedJson? && ParseCategory(CategoryText(form)).Some?
    ensures form.tags.MalformedJson? ==> r == Fail(500, form.tags.error)
    ensures r.Ok? ==> r.value.0 == ParseCategory(CategoryText(form)).value
    ensures r.Ok? ==> r.value.1 == (if form.tags.TagsJson? then form.tags.tags else [])
    ensures !r.NoReply?
  {
    var tags := match form.tags
      case NoTags => Ok([])
      case TagsJson(ts) => Ok(ts)
      case MalformedJson(e) => Fail(500, e);
    match tags
    case Fail(s, m) => Fail(s, m)
    case Ok(ts) =>
      var text := CategoryText(form);
      match ParseCategory(text)
      case None => Fail(500, CategoryError(text))
      case Some(category) => Ok((category, ts))
  }

  /**
   * `POST /api/vault/upload`. The blob is written to disk before the
   * document is validated, so a rejected form still leaves it there; the
   * failure is logged and answered with 500.
   */
  function VaultUpload(st: Store, cred: Credential, file: Option<SharedFiles.Upload>, form: VaultForm, ctx: Ctx,
                       p: Cipher.Primitives, freshIv: Cipher.Iv): (r: Handled<VaultItem>)
    ensures !Authenticate(st, cred).Authenticated? ==> r.store == st && r.outcome.Fail?
    ensures Authenticate(st, cred).Authenticated? && file.None? ==> r == Handled(st, Fail(400, "No file uploaded"))
    ensures r.outcome.Ok? <==>
      Authenticate(st, cred).Authenticated? && file.Some? && ValidateForm(form).Ok?
    ensures Authenticate(st, cred).Authenticated? && file.Some? ==>
      var path := PathOf(VaultFilename(ctx.now, file.value.originalname));
      && r.store.disk == st.disk[path := p.encrypt(Cipher.EncryptionKey(p), freshIv, file.value.buffer)]
      && r.store.users == st.users && r.store.files == st.files
      && |r.store.securityLog| == |st.securityLog| + (if ctx.logWritable then 1 else 0)
      && r.store.securityLog[..|st.securityLog|] == st.securityLog
      && (ctx.logWritable ==>
            var e := r.store.securityLog[|st.securityLog|];
            && e.event == "File Upload"
            && e.user == Some(DisplayName(cred.claims.name))
            && e.status == (if r.outcome.Ok? then "success" else "error"))
      && (!r.outcome.Ok? ==> r.outcome == Fail(500, "Failed to store in vault") && r.store.vault == st.vault)
    ensures r.outcome.Ok? ==>
      var item := r.outcome.value;
      && r.store.vault == st.vault + [item]
      && r.store.nextId == st.nextId + 1
      && item.id == st.nextId
      && item.owner == cred.claims.id
      && item.filename == VaultFilename(ctx.now, file.value.originalname)
      && item.path == PathOf(item.filename)
      && item.originalname == file.value.originalname
      && item.contentType == file.value.mimetype
      && item.size == |file.value.buffer|
      && item.uploadDate == ctx.now && item.lastAccessed == ctx.now
      && Hex.Decode(item.iv) == freshIv
      && item.category == ValidateForm(form).value.0
      && item.tags == ValidateForm(form).value.1
      && item.description == form.description
  {
    match Authenticate(st, cred)
    case Rejected(s, m) => Handled(st, Fail(s, m))
    case Authenticated(c) =>
      match file
      case None => Handled(st, Fail(400, "No file uploaded"))
      case Some(f) =>
        var strongKey := Cipher.VaultKey(p, c.id);
        var e := Cipher.EncryptFile(p, f.buffer, freshIv);
        var name := VaultFilename(ctx.now, f.originalname);
        var written := st.(disk := st.disk[PathOf(name) := e.data]);
        match ValidateForm(form)
        case Ok((category, tags)) =>
          var item := VaultItem(st.nextId, name, f.originalname, ctx.now, |f.buffer|, c.id, f.mimetype,
                                PathOf(name), e.iv, category, form.description, tags, ctx.now);
          var saved := written.(vault := st.vault + [item], nextId := st.nextId + 1);
          var details := "File " + Quoted(f.originalname) + " encrypted and stored in vault";
          Handled(LogSecurityEvent(saved, "File Upload", c.name, "success", details, ctx), Ok(item))
        case Fail(_, why) =>
          var details := "Failed to upload file: " + why;
          Handled(LogSecurityEvent(written, "File Upload", c.name, "error", details, ctx), Fail(500, "Failed to store in vault"))
  }

  function OwnedBy(userId: Id): VaultItem -> bool {
    (v: VaultItem) => v.owner == userId
  }

  /** `GET /api/vault/files`: the caller's own items, newest first. */
  function VaultList(st: Store, cred: Credential): (r: Outcome<seq<VaultItem>>)
    ensures r.Ok? <==> Authenticate(st, cred).Authenticated?
    ensures r.Ok? ==> SortedDesc(r.value, VaultUploadDate)
    ensures r.Ok? ==> forall v :: multiset(r.value)[v] == if v.owner == cred.claims.id then multiset(st.vault)[v] else 0
  {
    match Authenticate(st, cred)
    case Rejected(s, m) => Fail(s, m)
    case Authenticated(c) => Ok(Select(st.vault, OwnedBy(c.id), VaultUploadDate))
  }

  function OwnedNamed(filename: string, userId: Id): VaultItem -> bool {
    (v: VaultItem) => v.filename == filename && v.owner == userId
  }

  /** An inline `new SecurityLog({...}).save()`; `None` when the save throws. */
  function SaveEvent(st: Store, event: string, name: Option<string>, status: string, details: string, ctx: Ctx): (r: Option<Store>)
    ensures r.Some? <==> ctx.logWritable
    ensures r.Some? ==> r.value == st.(securityLog := st.securityLog + [SecurityEvent(ctx.now, event, name, status, details, ctx.ip)])
  {
    if ctx.logWritable then Some(st.(securityLog := st.securityLog + [SecurityEvent(ctx.now, event, name, status, details, ctx.ip)]))
    else None
  }

  /**
   * The shared catch of the download and delete routes: write the error
   * event, then answer 500; if that save throws too, no reply is sent.
   */
  function Failed<T>(st: Store, event: string, c: Claims, why: string, reply: string, ctx: Ctx): (r: Handled<T>)
    ensures ctx.logWritable ==> r.outcome == Fail(500, reply)
    ensures !ctx.logWritable ==> r == Handled(st, NoReply)
    ensures ctx.logWritable ==>
      r.store == st.(securityLog := st.securityLog + [SecurityEvent(ctx.now, event, c.name, "error", why, ctx.ip)])
  {
    match SaveEvent(st, event, c.name, "error", why, ctx)
    case Some(st') => Handled(st', Fail(500, reply))
    case None => Handled(st, NoReply)
  }

  /** `error.message` of `fs.readFileSync` / `fs.unlinkSync` on a missing path. */
  function NoSuchFile(syscall: string, path: string): string {
    "ENOENT: no such file or directory, " + syscall + " " + "'" + path + "'"
  }

  /** `error.message` when the decipher throws. */
  const DECRYPT_ERROR := "bad decrypt"

  function WithAccess(v: VaultItem, now: nat): VaultItem {
    v.(lastAccessed := now)
  }

  /**
   * `GET /api/vault/download/:filename`: only the owner finds the item. On
   * success `lastAccessed` is saved before the event; if the event then fails
   * to save, the catch logs the failure and answers 500 with the update kept.
   */
  function VaultDownload(st: Store, cred: Credential, filename: string, ctx: Ctx, p: Cipher.Primitives): (r: Handled<SharedFiles.FileDownload>)
    ensures Authenticate(st, cred).Authenticated? && FindFirst(st.vault, OwnedNamed(filename, cred.claims.id)).None? ==>
      r == Handled(st, Fail(404, "File not found in vault"))
    ensures r.outcome.Ok? <==>
      && Authenticate(st, cred).Authenticated?
      && FindFirst(st.vault, OwnedNamed(filename, cred.claims.id)).Some?
      && var v := st.vault[FindFirst(st.vault, OwnedNamed(filename, cred.claims.id)).value];
         && v.path in st.disk
         && Cipher.DecryptFile(p, st.disk[v.path], v.iv).Some?
         && ctx.logWritable
    ensures r.outcome.Ok? ==>
      var i := FindFirst(st.vault, OwnedNamed(filename, cred.claims.id)).value;
      var v := st.vault[i];
      && v.owner == cred.claims.id && v.filename == filename
      && Cipher.DecryptFile(p, st.disk[v.path], v.iv) == Some(r.outcome.value.data)
      && r.outcome.value.contentType == v.contentType
      && r.outcome.value.originalname == v.originalname
      && r.store == st.(vault := st.vault[i := WithAccess(v, ctx.now)],
                        securityLog := st.securityLog + [SecurityEvent(ctx.now, "File Download", cred.claims.name, "success",
                                                                       "File " + Quoted(v.originalname) + " decrypted and downloaded", ctx.ip)])
    ensures r.outcome.Fail? && r.outcome.status == 500 ==>
      && r.outcome.message == "Error accessing vault file"
      && r.store == st.(vault := r.store.vault, securityLog := r.store.securityLog)
      && (ctx.logWritable ==> r.store.vault == st.vault)
      && |r.store.securityLog| == |st.securityLog| + 1
      && r.store.securityLog[..|st.securityLog|] == st.securityLog
      && r.store.securityLog[|st.securityLog|].status == "error"
    ensures
      (&& Authenticate(st, cred).Authenticated?
       && FindFirst(st.vault, OwnedNamed(filename, cred.claims.id)).Some?
       && var v := st.vault[FindFirst(st.vault, OwnedNamed(filename, cred.claims.id)).value];
          && v.path in st.disk
          && Cipher.DecryptFile(p, st.disk[v.path], v.iv).Some?
          && !ctx.logWritable)
      ==>
      var i := FindFirst(st.vault, OwnedNamed(filename, cred.claims.id)).value;
      && r.store.vault == st.vault[i := WithAccess(st.vault[i], ctx.now)]
      && (r.outcome == Fail(500, "Error accessing vault file") <==> ctx.retryWritable)
      && (!ctx.retryWritable ==> r.outcome == NoReply && r.store.securityLog == st.securityLog)
    ensures r.store.vault != st.vault ==> r.outcome.Ok? || !ctx.logWritable
  {
    match Authenticate(st, cred)
    case Rejected(s, m) => Handled(st, Fail(s, m))
    case Authenticated(c) =>
      match FindFirst(st.vault, OwnedNamed(filename, c.id))
      case None => Handled(st, Fail(404, "File not found in vault"))
      case Some(i) =>
        var v := st.vault[i];
        var strongKey := Cipher.VaultKey(p, c.id);
        if v.path !in st.disk then
          Failed(st, "File Download", c, "Failed to download file: " + NoSuchFile("open", v.path), "Error accessing vault file", ctx)
        else
          match Cipher.DecryptFile(p, st.disk[v.path], v.iv)
          case None =>
            Failed(st, "File Download", c, "Failed to download file: " + DECRYPT_ERROR, "Error accessing vault file", ctx)
          case Some(plain) =>
            var touched := st.(vault := st.vault[i := WithAccess(v, ctx.now)]);
            var details := "File " + Quoted(v.originalname) + " decrypted and downloaded";
            match SaveEvent(touched, "File Download", c.name, "success", details, ctx)
            case Some(st') => Handled(st', Ok(SharedFiles.FileDownload(plain, v.contentType, v.originalname)))
            case None =>
              Failed(touched, "File Download", c, "Failed to download file: " + ctx.saveError, "Error accessing vault file", Retry(ctx))
  }

  function OwnedWithId(itemId: Id, userId: Id): VaultItem -> bool {
    (v: VaultItem) => v.id == itemId && v.owner == userId
  }

  function HasItemId(itemId: Id): VaultItem -> bool {
    (v: VaultItem) => v.id == itemId
  }

  /**
   * `DELETE /api/vault/:itemId`: a parameter that is not an `ObjectId`
   * makes the query throw, which the catch logs and answers with 500; the
   * rest is `VaultDeleteOwned`.
   */
  function VaultDelete(st: Store, cred: Credential, itemId: string, ctx: Ctx): (r: Handled<string>)
    ensures !Authenticate(st, cred).Authenticated? ==> r.store == st && r.outcome.Fail?
    ensures Authenticate(st, cred).Authenticated? && ObjectIds.Cast(itemId).None? ==>
      && (r.outcome == Fail(500, "Error deleting vault item") <==> ctx.logWritable)
      && (!ctx.logWritable ==> r == Handled(st, NoReply))
      && (ctx.logWritable ==>
            r.store == st.(securityLog := st.securityLog + [SecurityEvent(ctx.now, "File Delete", cred.claims.name, "error",
                                                                        "Failed to delete file: " + ObjectIds.CastError(itemId, "VaultItem"), ctx.ip)]))
    ensures Authenticate(st, cred).Authenticated? && ObjectIds.Cast(itemId).Some? ==>
      r == VaultDeleteOwned(st, cred.claims, ObjectIds.Cast(itemId).value, ctx)
    ensures r.outcome.Ok? ==> ObjectIds.Cast(itemId).Some?
  {
    match Authenticate(st, cred)
    case Rejected(s, m) => Handled(st, Fail(s, m))
    case Authenticated(c) =>
      match ObjectIds.Cast(itemId)
      case None =>
        Failed(st, "File Delete", c, "Failed to delete file: " + ObjectIds.CastError(itemId, "VaultItem"), "Error deleting vault item", ctx)
      case Some(id) => VaultDeleteOwned(st, c, id, ctx)
  }

  /**
   * `DELETE /api/vault/:itemId` once the id has cast: only the owner finds
   * the item. The blob is unlinked, then the first item with the id is
   * removed, then the event is saved; a failing save leaves both removals in
   * place, and the catch logs the failure and answers 500.
   */
  function VaultDeleteOwned(st: Store, c: Claims, itemId: Id, ctx: Ctx): (r: Handled<string>)
    ensures FindFirst(st.vault, OwnedWithId(itemId, c.id)).None? ==> r == Handled(st, Fail(404, "Item not found in vault"))
    ensures r.outcome.Ok? <==>
      && FindFirst(st.vault, OwnedWithId(itemId, c.id)).Some?
      && st.vault[FindFirst(st.vault, OwnedWithId(itemId, c.id)).value].path in st.disk
      && ctx.logWritable
    ensures r.outcome.Ok? ==> r.outcome.value == "Vault item deleted successfully"
    ensures (FindFirst(st.vault, OwnedWithId(itemId, c.id)).Some?
             && st.vault[FindFirst(st.vault, OwnedWithId(itemId, c.id)).value].path in st.disk) ==>
      var v := st.vault[FindFirst(st.vault, OwnedWithId(itemId, c.id)).value];
      && FindFirst(st.vault, HasItemId(itemId)).Some?
      && r.store.vault == SharedFiles.RemoveAt(st.vault, FindFirst(st.vault, HasItemId(itemId)).value)
      && r.store.disk == st.disk - {v.path}
      && r.store.users == st.users && r.store.files == st.files && r.store.nextId == st.nextId
      && (r.outcome == Fail(500, "Error deleting vault item") <==> !ctx.logWritable && ctx.retryWritable)
    ensures (FindFirst(st.vault, OwnedWithId(itemId, c.id)).Some?
             && st.vault[FindFirst(st.vault, OwnedWithId(itemId, c.id)).value].path !in st.disk) ==>
      r.store == st.(securityLog := r.store.securityLog)
      && (r.outcome == Fail(500, "Error deleting vault item") || r.outcome == NoReply)
    ensures r.outcome.Fail? && r.outcome.status == 500 ==>
      && r.outcome.message == "Error deleting vault item"
      && (ctx.logWritable ==> r.store == st.(securityLog := r.store.securityLog))
      && |r.store.securityLog| == |st.securityLog| + 1
      && r.store.securityLog[..|st.securityLog|] == st.securityLog
      && r.store.securityLog[|st.securityLog|].status == "error"
  {
    match FindFirst(st.vault, OwnedWithId(itemId, c.id))
    case None => Handled(st, Fail(404, "Item not found in vault"))
    case Some(i) =>
      var v := st.vault[i];
      if v.path !in st.disk then
        Failed(st, "File Delete", c, "Failed to delete file: " + NoSuchFile("unlink", v.path), "Error deleting vault item", ctx)
      else
        match FindFirst(st.vault, HasItemId(itemId))
        case Some(j) =>
          var removed := st.(disk := st.disk - {v.path}, vault := SharedFiles.RemoveAt(st.vault, j));
          var details := "File " + Quoted(v.originalname) + " deleted from vault";
          match SaveEvent(removed, "File Delete", c.name, "success", details, ctx)
          case Some(st') => Handled(st', Ok("Vault item deleted successfully"))
          case None =>
            Failed(removed, "File Delete", c, "Failed to delete file: " + ctx.saveError, "Error deleting vault item", Retry(ctx))
  }

  /**
   * The per-user `strongKey` never reaches the cipher: replacing PBKDF2 by
   * any other function changes neither the store nor the reply of a vault
   * upload or download.
   */
  lemma StrongKeyUnused(st: Store, cred: Credential, file: Option<SharedFiles.Upload>, form: VaultForm, filename: string,
                        ctx: Ctx, p: Cipher.Primitives, freshIv: Cipher.Iv, other: (string, Id, nat, nat, string) -> Bytes)
    ensures VaultUpload(st, cred, file, form, ctx, p, freshIv) == VaultUpload(st, cred, file, form, ctx, p.(pbkdf2 := other), freshIv)
    ensures VaultDownload(st, cred, filename, ctx, p) == VaultDownload(st, cred, filename, ctx, p.(pbkdf2 := other))
  {
  }
}
