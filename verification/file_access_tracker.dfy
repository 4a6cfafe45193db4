/**
 * `trackFileAccess` (server/middleware/fileAccessTracker.js). The middleware
 * replaces `res.send` with a wrapper; the wrapper is modelled as a pure step
 * over the `File` collection and the audit trail that also returns the list
 * of bodies handed to the original `send`. Database failures are the
 * caller-supplied `Faults`; every one of them is caught inside the wrapper.
 * Express's own `send` answers an object with `res.json`, which calls
 * `res.send` again with the JSON text: that call runs the wrapper a second
 * time, and the original `send` runs twice, first with the object and then
 * with its text.
 */
module FileAccessTracker {
  import opened Types
  import opened Collections
  import AuditTrail
  import ObjectIds

  /** Shape of server/models/File.js; no rule of this model reads `permissions` or `integrityChecks`. */
  datatype Permissions = Permissions(allowDownload: bool, allowPrint: bool, expiryDate: Option<nat>, restrictedTo: seq<Id>)
  datatype IntegrityCheck = IntegrityCheck(timestamp: nat, status: string, verifiedBy: Option<Id>)
  datatype TrackedFile = TrackedFile(
    id: Id,
    filename: string,
    originalname: string,
    uploadDate: nat,
    size: nat,
    uploadedBy: Option<Id>,
    contentType: string,
    path: string,
    originalPath: Option<string>,
    iv: string,
    hash: Option<string>,
    watermarked: bool,
    accessLog: seq<AccessEntry>,
    permissions: Permissions,
    integrityChecks: seq<IntegrityCheck>)

  /**
   * The parts of the Express request the wrapper reads: `req.params.fileId`
   * as text, and `user`, the id of `req.user` set by authentication.
   */
  datatype Request = Request(fileId: string, user: Option<Id>, httpMethod: string, ip: string, userAgent: string)

  /** Which awaited database call throws: `File.findById`, `file.save()`, or the audit save. */
  datatype Faults = Faults(lookupFails: bool, fileSaveFails: bool, auditSaveFails: bool)

  datatype Db = Db(files: seq<TrackedFile>, audit: seq<AuditTrail.AuditRecord>)

  /**
   * What a route hands to `res.send`: a string, a `Buffer`, or an object,
   * carried as the text `JSON.stringify` makes of it.
   */
  datatype Body = Text(text: string) | Buffer(bytes: Bytes) | Json(serialized: string)

  /**
   * The state after the wrapper ran, and the body of every call to the
   * original `send`, in order; the last one is what the response carries.
   */
  datatype Sent = Sent(db: Db, sent: seq<Body>)

  function HasId(fileId: Id): TrackedFile -> bool {
    (f: TrackedFile) => f.id == fileId
  }

  /** The audit entry written for one access. */
  function AccessAudit(req: Request, fileId: Id, userId: Id, file: TrackedFile): AuditTrail.AuditInput {
    AuditTrail.AuditInput(
      Some(userId), "FILE_ACCESS", "File", Some(fileId),
      map["method" := req.httpMethod, "filename" := file.originalname],
      req.ip, req.userAgent)
  }

  /** All logging succeeds and the requested file is in the collection, at index `i`. */
  predicate LogsAt(db: Db, req: Request, faults: Faults, i: nat) {
    && !faults.lookupFails && !faults.fileSaveFails && req.user.Some?
    && ObjectIds.Cast(req.fileId).Some?
    && FindFirst(db.files, HasId(ObjectIds.Cast(req.fileId).value)) == Some(i)
  }

  /** The access entry one pass appends. */
  function Entry(req: Request, now: nat): AccessEntry
    requires req.user.Some?
  {
    AccessEntry(req.user.value, req.httpMethod, now, req.ip)
  }

  /**
   * One pass of the wrapper before it calls the original `send`. A
   * `fileId` that does not cast makes `findById` throw, like a failed lookup.
   */
  function Track(db: Db, req: Request, now: nat, faults: Faults): (r: Db)
    ensures (faults.lookupFails || faults.fileSaveFails || req.user.None? || ObjectIds.Cast(req.fileId).None?) ==> r == db
    ensures ObjectIds.Cast(req.fileId).Some? && FindFirst(db.files, HasId(ObjectIds.Cast(req.fileId).value)).None? ==> r == db
    ensures forall i: nat :: LogsAt(db, req, faults, i) ==>
      && |r.files| == |db.files|
      && r.files[i] == db.files[i].(accessLog := db.files[i].accessLog + [Entry(req, now)])
      && (forall j :: 0 <= j < |db.files| && j != i ==> r.files[j] == db.files[j])
    ensures forall i: nat :: LogsAt(db, req, faults, i) ==>
      r.audit == db.audit + (if faults.auditSaveFails then []
                             else [AuditTrail.Stamp(AccessAudit(req, ObjectIds.Cast(req.fileId).value, req.user.value, db.files[i]), now)])
  {
    if faults.lookupFails then db
    else
      match ObjectIds.Cast(req.fileId)
      case None => db
      case Some(fileId) =>
        match FindFirst(db.files, HasId(fileId))
        case None => db
        case Some(i) =>
          match req.user
          case None => db
          case Some(userId) =>
            if faults.fileSaveFails then db
            else
              var file := db.files[i];
              var entry := AccessEntry(userId, req.httpMethod, now, req.ip);
              Db(db.files[i := file.(accessLog := file.accessLog + [entry])],
                 AuditTrail.Log(db.audit, AccessAudit(req, fileId, userId, file), now, !faults.auditSaveFails))
  }

  /** A pass keeps every id where it was, so the next pass finds the same file. */
  lemma TrackKeepsLookup(db: Db, req: Request, now: nat, faults: Faults, i: nat)
    requires LogsAt(db, req, faults, i)
    ensures LogsAt(Track(db, req, now, faults), req, faults, i)
  {
    var id := ObjectIds.Cast(req.fileId).value;
    var r := Track(db, req, now, faults);
    assert forall j :: 0 <= j < |db.files| ==> r.files[j].id == db.files[j].id;
    assert HasId(id)(r.files[i]);
    assert forall j :: 0 <= j < i ==> !HasId(id)(r.files[j]);
  }

  /**
   * The wrapped `res.send(data)`. The original `send` runs once for a
   * string or `Buffer` and twice for an object: with the object, then, from
   * inside `res.json`, with its JSON text, which the response carries. Each
   * pass of the wrapper appends one access entry and, unless its save fails,
   * one `FILE_ACCESS` audit record.
   */
  function TrackedSend(db: Db, req: Request, data: Body, now: nat, faults: Faults): (r: Sent)
    ensures r.sent == if data.Json? then [data, Text(data.serialized)] else [data]
    ensures r.sent[|r.sent| - 1] == if data.Json? then Text(data.serialized) else data
    ensures (faults.lookupFails || faults.fileSaveFails || req.user.None? || ObjectIds.Cast(req.fileId).None?) ==> r.db == db
    ensures ObjectIds.Cast(req.fileId).Some? && FindFirst(db.files, HasId(ObjectIds.Cast(req.fileId).value)).None? ==> r.db == db
    ensures forall i: nat :: LogsAt(db, req, faults, i) ==>
      var entries := if data.Json? then [Entry(req, now), Entry(req, now)] else [Entry(req, now)];
      && |r.db.files| == |db.files|
      && r.db.files[i] == db.files[i].(accessLog := db.files[i].accessLog + entries)
      && (forall j :: 0 <= j < |db.files| && j != i ==> r.db.files[j] == db.files[j])
    ensures forall i: nat :: LogsAt(db, req, faults, i) ==>
      var record := AuditTrail.Stamp(AccessAudit(req, ObjectIds.Cast(req.fileId).value, req.user.value, db.files[i]), now);
      r.db.audit == db.audit + (if faults.auditSaveFails then [] else if data.Json? then [record, record] else [record])
  {
    var once := Track(db, req, now, faults);
    match data
    case Json(t) =>
      forall i: nat | LogsAt(db, req, faults, i) {
        TrackTwice(db, req, now, faults, i);
      }
      Sent(Track(once, req, now, faults), [data, Text(t)])
    case _ => Sent(once, [data])
  }

  /** Two passes over the same request append the entry and the audit record twice. */
  lemma TrackTwice(db: Db, req: Request, now: nat, faults: Faults, i: nat)
    requires LogsAt(db, req, faults, i)
    ensures var twice := Track(Track(db, req, now, faults), req, now, faults);
      && |twice.files| == |db.files|
      && twice.files[i] == db.files[i].(accessLog := db.files[i].accessLog + [Entry(req, now), Entry(req, now)])
      && (forall j :: 0 <= j < |db.files| && j != i ==> twice.files[j] == db.files[j])
    ensures var record := AuditTrail.Stamp(AccessAudit(req, ObjectIds.Cast(req.fileId).value, req.user.value, db.files[i]), now);
      Track(Track(db, req, now, faults), req, now, faults).audit
        == db.audit + (if faults.auditSaveFails then [] else [record, record])
  {
    var once := Track(db, req, now, faults);
    TrackKeepsLookup(db, req, now, faults, i);
    assert once.files[i].accessLog + [Entry(req, now)] == db.files[i].accessLog + [Entry(req, now), Entry(req, now)];
    assert once.files[i].originalname == db.files[i].originalname;
  }
}
