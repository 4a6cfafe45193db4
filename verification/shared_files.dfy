/**
 * The shared-file routes of server/server.js: `POST /api/upload`,
 * `GET /api/files`, `GET /api/files/shared`, `GET /api/download/:filename`
 * and `DELETE /api/files/:fileId`. Each route is a function from the store
 * (and the request) to a new store and a reply.
 */
module SharedFiles {
  import opened Types
  import opened Collections
  import opened ServerState
  import Text
  import Hex
  import Cipher
  import ObjectIds

  /** What multer leaves in `req.file`; `size` is the buffer's length. */
  datatype Upload = Upload(buffer: Bytes, originalname: string, mimetype: string)

  datatype UploadReceipt = UploadReceipt(filename: string, originalname: string, size: nat)

  datatype FileDownload = FileDownload(data: Bytes, contentType: string, originalname: string)

  /** `Math.floor(Math.random() * 10000000000)` lies below this bound. */
  const RANDOM_RANGE: nat := 10000000000

  /** `${timestamp}-encrypted-${random}.pdf`. */
  function SharedFilename(now: nat, nonce: nat): string {
    Text.Decimal(now) + "-encrypted-" + Text.Decimal(nonce % RANDOM_RANGE) + ".pdf"
  }

  /** The record the upload route saves. */
  function NewRecord(st: Store, c: Claims, file: Upload, name: string, ivHex: string, now: nat): FileRecord {
    FileRecord(st.nextId, name, file.originalname, now, |file.buffer|, c.id,
               file.mimetype, PathOf(name), None, ivHex, false, [])
  }

  /** `POST /api/upload`; `freshIv` and `nonce` are the route's two random draws. */
  function UploadFile(st: Store, cred: Credential, file: Option<Upload>, ctx: Ctx,
                      p: Cipher.Primitives, freshIv: Cipher.Iv, nonce: nat): (r: Handled<UploadReceipt>)
    ensures !r.outcome.Ok? ==> r.store == st
    ensures r.outcome.Ok? <==> Authenticate(st, cred).Authenticated? && file.Some?
    ensures Authenticate(st, cred).Authenticated? && file.None? ==> r.outcome == Fail(400, "No file uploaded")
    ensures r.outcome.Ok? ==>
      && r.store == st.(files := r.store.files, disk := r.store.disk, nextId := st.nextId + 1)
      && |r.store.files| == |st.files| + 1
      && r.store.files[..|st.files|] == st.files
      && var rec := r.store.files[|st.files|];
         && rec.id == st.nextId
         && rec.uploadedBy == cred.claims.id
         && rec.originalname == file.value.originalname
         && rec.contentType == file.value.mimetype
         && rec.size == |file.value.buffer|
         && rec.uploadDate == ctx.now
         && Hex.Decode(rec.iv) == freshIv
         && !rec.watermarked && rec.accessLog == [] && rec.originalPath == None
         && rec.filename == r.outcome.value.filename
         && rec.path == PathOf(rec.filename)
         && r.store.disk == st.disk[rec.path := p.encrypt(Cipher.EncryptionKey(p), freshIv, file.value.buffer)]
  {
    match Authenticate(st, cred)
    case Rejected(s, m) => Handled(st, Fail(s, m))
    case Authenticated(c) =>
      match file
      case None => Handled(st, Fail(400, "No file uploaded"))
      case Some(f) =>
        var name := SharedFilename(ctx.now, nonce);
        var e := Cipher.EncryptFile(p, f.buffer, freshIv);
        var rec := NewRecord(st, c, f, name, e.iv, ctx.now);
        var st' := st.(files := st.files + [rec], disk := st.disk[rec.path := e.data], nextId := st.nextId + 1);
        Handled(st', Ok(UploadReceipt(name, f.originalname, |f.buffer|)))
  }

  function UploadedBy(userId: Id): FileRecord -> bool {
    (f: FileRecord) => f.uploadedBy == userId
  }

  /** `GET /api/files`: the caller's own uploads, newest first. */
  function ListOwn(st: Store, cred: Credential): (r: Outcome<seq<FileRecord>>)
    ensures r.Ok? <==> Authenticate(st, cred).Authenticated?
    ensures r.Ok? ==> SortedDesc(r.value, UploadDate)
    ensures r.Ok? ==> forall f :: multiset(r.value)[f] == if f.uploadedBy == cred.claims.id then multiset(st.files)[f] else 0
  {
    match Authenticate(st, cred)
    case Rejected(s, m) => Fail(s, m)
    case Authenticated(c) => Ok(Select(st.files, UploadedBy(c.id), UploadDate))
  }

  /** Some registered user with this id has the teacher role. */
  predicate IsTeacher(st: Store, id: Id) {
    exists i :: 0 <= i < |st.users| && st.users[i].id == id && st.users[i].role == Teacher
  }

  /** `User.find({ role: 'teacher' }).map(t => t._id)`. */
  function TeacherIds(st: Store): (ids: set<Id>)
    ensures forall id :: id in ids <==> IsTeacher(st, id)
  {
    set i | 0 <= i < |st.users| && st.users[i].role == Teacher :: st.users[i].id
  }

  function UploadedByAny(ids: set<Id>): FileRecord -> bool {
    (f: FileRecord) => f.uploadedBy in ids
  }

  /**
   * `GET /api/files/shared`: a student sees exactly the files uploaded by
   * teachers, anyone else sees every file; both newest first.
   */
  function ListShared(st: Store, cred: Credential): (r: Outcome<seq<FileRecord>>)
    ensures r.Ok? <==> Authenticate(st, cred).Authenticated?
    ensures r.Ok? ==> SortedDesc(r.value, UploadDate)
    ensures r.Ok? && cred.claims.role == Teacher ==> multiset(r.value) == multiset(st.files)
    ensures r.Ok? && cred.claims.role == Student ==>
      forall f :: multiset(r.value)[f] == if IsTeacher(st, f.uploadedBy) then multiset(st.files)[f] else 0
  {
    match Authenticate(st, cred)
    case Rejected(s, m) => Fail(s, m)
    case Authenticated(c) =>
      if c.role == Student then Ok(Select(st.files, UploadedByAny(TeacherIds(st)), UploadDate))
      else Ok(SortDesc(st.files, UploadDate))
  }

  function Named(filename: string): FileRecord -> bool {
    (f: FileRecord) => f.filename == filename
  }

  function WithEntry(f: FileRecord, e: AccessEntry): FileRecord {
    f.(accessLog := f.accessLog + [e])
  }

  /**
   * `GET /api/download/:filename`. The record is looked up by name alone:
   * any authenticated caller may download any shared file.
   */
  function Download(st: Store, cred: Credential, filename: string, ctx: Ctx, p: Cipher.Primitives): (r: Handled<FileDownload>)
    ensures !r.outcome.Ok? ==> r.store == st
    ensures Authenticate(st, cred).Authenticated? && FindFirst(st.files, Named(filename)).None? ==>
      r.outcome == Fail(404, "File not found in database")
    ensures (Authenticate(st, cred).Authenticated? && FindFirst(st.files, Named(filename)).Some?
             && st.files[FindFirst(st.files, Named(filename)).value].path !in st.disk) ==>
      r.outcome == Fail(404, "File not found on disk")
    ensures (Authenticate(st, cred).Authenticated? && FindFirst(st.files, Named(filename)).Some?
             && st.files[FindFirst(st.files, Named(filename)).value].path in st.disk
             && st.files[FindFirst(st.files, Named(filename)).value].iv == "") ==>
      r.outcome == Fail(500, "Error downloading file")
    ensures r.outcome.Ok? ==>
      && Authenticate(st, cred).Authenticated?
      && FindFirst(st.files, Named(filename)).Some?
      && var i := FindFirst(st.files, Named(filename)).value;
         var f := st.files[i];
         && f.path in st.disk
         && Cipher.DecryptFile(p, st.disk[f.path], f.iv) == Some(r.outcome.value.data)
         && r.outcome.value.contentType == f.contentType
         && r.outcome.value.originalname == f.originalname
         && r.store == st.(files := st.files[i := WithEntry(f, AccessEntry(cred.claims.id, "DOWNLOAD", ctx.now, ctx.ip))])
  {
    match Authenticate(st, cred)
    case Rejected(s, m) => Handled(st, Fail(s, m))
    case Authenticated(c) =>
      match FindFirst(st.files, Named(filename))
      case None => Handled(st, Fail(404, "File not found in database"))
      case Some(i) =>
        var f := st.files[i];
        if f.path !in st.disk then Handled(st, Fail(404, "File not found on disk"))
        else if f.iv == "" then Handled(st, Fail(500, "Error downloading file"))
        else
          match Cipher.DecryptFile(p, st.disk[f.path], f.iv)
          case None => Handled(st, Fail(500, "Error downloading file"))
          case Some(plain) =>
            var entry := AccessEntry(c.id, "DOWNLOAD", ctx.now, ctx.ip);
            Handled(st.(files := st.files[i := WithEntry(f, entry)]), Ok(FileDownload(plain, f.contentType, f.originalname)))
  }

  /**
   * Only authentication matters to a download: two authenticated callers,
   * whatever their roles and ids, get the same reply, and the stores differ
   * at most in whose id the new access entry records.
   */
  lemma DownloadIgnoresCaller(st: Store, c1: Claims, c2: Claims, filename: string, ctx: Ctx, p: Cipher.Primitives)
    requires Registered(st, c1.id) && Registered(st, c2.id)
    ensures Download(st, Bearer(c1), filename, ctx, p).outcome == Download(st, Bearer(c2), filename, ctx, p).outcome
    ensures |Download(st, Bearer(c1), filename, ctx, p).store.files| == |st.files|
    ensures Download(st, Bearer(c1), filename, ctx, p).store.(files := st.files)
         == Download(st, Bearer(c2), filename, ctx, p).store.(files := st.files)
  {
  }

  function HasFileId(fileId: Id): FileRecord -> bool {
    (f: FileRecord) => f.id == fileId
  }

  function OwnedWithId(fileId: Id, userId: Id): FileRecord -> bool {
    (f: FileRecord) => f.id == fileId && f.uploadedBy == userId
  }

  function RemoveAt<T>(s: seq<T>, i: nat): (r: seq<T>)
    requires i < |s|
    ensures |r| == |s| - 1
    ensures forall j :: 0 <= j < i ==> r[j] == s[j]
    ensures forall j :: i <= j < |r| ==> r[j] == s[j + 1]
  {
    s[..i] + s[i + 1..]
  }

  /**
   * `DELETE /api/files/:fileId`: a parameter that is not an `ObjectId`
   * makes the query throw, answered with 500 and no change; the rest is
   * `DeleteOwned`.
   */
  function Delete(st: Store, cred: Credential, fileId: string): (r: Handled<string>)
    ensures !Authenticate(st, cred).Authenticated? ==> r.store == st && r.outcome.Fail?
    ensures Authenticate(st, cred).Authenticated? && ObjectIds.Cast(fileId).None? ==>
      r == Handled(st, Fail(500, "Error deleting file"))
    ensures Authenticate(st, cred).Authenticated? && ObjectIds.Cast(fileId).Some? ==>
      r == DeleteOwned(st, cred.claims, ObjectIds.Cast(fileId).value)
    ensures r.outcome.Ok? ==> ObjectIds.Cast(fileId).Some?
  {
    match Authenticate(st, cred)
    case Rejected(s, m) => Handled(st, Fail(s, m))
    case Authenticated(c) =>
      match ObjectIds.Cast(fileId)
      case None => Handled(st, Fail(500, "Error deleting file"))
      case Some(id) => DeleteOwned(st, c, id)
  }

  /**
   * `DELETE /api/files/:fileId` once the id has cast: only the uploader
   * finds the record. The encrypted blob is unlinked first, then
   * `originalPath`; when the second unlink throws, the blob is already gone
   * and the record is kept. The record finally removed is the first with the
   * id (`deleteOne({ _id })`).
   */
  function DeleteOwned(st: Store, c: Claims, fileId: Id): (r: Handled<string>)
    ensures FindFirst(st.files, OwnedWithId(fileId, c.id)).None? ==> r == Handled(st, Fail(404, "File not found"))
    ensures FindFirst(st.files, OwnedWithId(fileId, c.id)).Some? ==>
      var f := st.files[FindFirst(st.files, OwnedWithId(fileId, c.id)).value];
      && (f.path !in st.disk ==> r == Handled(st, Fail(500, "Error deleting file")))
      && (f.path in st.disk && f.originalPath.None? ==>
            r == Handled(st.(disk := st.disk - {f.path}), Fail(500, "Error deleting file")))
    ensures r.outcome.Ok? ==>
      && FindFirst(st.files, OwnedWithId(fileId, c.id)).Some?
      && var i := FindFirst(st.files, OwnedWithId(fileId, c.id)).value;
         var f := st.files[i];
         && f.originalPath.Some?
         && FindFirst(st.files, HasFileId(fileId)).Some?
         && r.store == st.(files := RemoveAt(st.files, FindFirst(st.files, HasFileId(fileId)).value),
                           disk := st.disk - {f.path, f.originalPath.value})
  {
    match FindFirst(st.files, OwnedWithId(fileId, c.id))
    case None => Handled(st, Fail(404, "File not found"))
    case Some(i) =>
      var f := st.files[i];
      if f.path !in st.disk then Handled(st, Fail(500, "Error deleting file"))
      else
        var st1 := st.(disk := st.disk - {f.path});
        match f.originalPath
        case None => Handled(st1, Fail(500, "Error deleting file"))
        case Some(original) =>
          if original !in st1.disk then Handled(st1, Fail(500, "Error deleting file"))
          else
            assert st1.disk - {original} == st.disk - {f.path, original};
            match FindFirst(st.files, HasFileId(fileId))
            case Some(j) =>
              Handled(st1.(files := RemoveAt(st.files, j), disk := st1.disk - {original}), Ok("File deleted successfully"))
  }
}
