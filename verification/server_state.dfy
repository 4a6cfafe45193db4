/**
 * The server's persistent state (server/server.js): the four Mongoose
 * collections `User`, `File`, `VaultItem` and `SecurityLog`, the
 * `encrypted/` directory as a map from path to bytes, and the id counter
 * standing in for `ObjectId` generation. Also the pieces every route shares:
 * authentication, the reply shape, and `logSecurityEvent`.
 */
module ServerState {
  import opened Types
  import opened Collections

  datatype Role = Teacher | Student

  /** The `role` enum of `UserSchema`; any other string fails validation on save. */
  function ParseRole(s: string): Option<Role> {
    if s == "teacher" then Some(Teacher)
    else if s == "student" then Some(Student)
    else None
  }

  /** A `User` document; `password` holds the bcrypt hash. */
  datatype User = User(id: Id, name: string, email: string, password: string, role: Role)

  /** A `File` document of `FileSchema`; `iv` is hex and `""` when absent. */
  datatype FileRecord = FileRecord(
    id: Id,
    filename: string,
    originalname: string,
    uploadDate: nat,
    size: nat,
    uploadedBy: Id,
    contentType: string,
    path: string,
    originalPath: Option<string>,
    iv: string,
    watermarked: bool,
    accessLog: seq<AccessEntry>)

  datatype Category = Credentials | Research | Academic | Exam | Other

  /** The `category` enum of `VaultItemSchema`. */
  function ParseCategory(s: string): Option<Category> {
    if s == "credentials" then Some(Credentials)
    else if s == "research" then Some(Research)
    else if s == "academic" then Some(Academic)
    else if s == "exam" then Some(Exam)
    else if s == "other" then Some(Other)
    else None
  }

  /** A `VaultItem` document. */
  datatype VaultItem = VaultItem(
    id: Id,
    filename: string,
    originalname: string,
    uploadDate: nat,
    size: nat,
    owner: Id,
    contentType: string,
    path: string,
    iv: string,
    category: Category,
    description: Option<string>,
    tags: seq<string>,
    lastAccessed: nat)

  /** A `SecurityLog` document; `user` is a display name, absent when the writer had none. */
  datatype SecurityEvent = SecurityEvent(
    timestamp: nat,
    event: string,
    user: Option<string>,
    status: string,
    details: string,
    ipAddress: string)

  datatype Store = Store(
    users: seq<User>,
    files: seq<FileRecord>,
    vault: seq<VaultItem>,
    securityLog: seq<SecurityEvent>,
    disk: map<string, Bytes>,
    nextId: Id)

  /** The verified JWT payload, `req.user`. Tokens issued at registration carry no name. */
  datatype Claims = Claims(id: Id, role: Role, name: Option<string>)

  /** What the `Authorization` header carries once `jwt.verify` has run. */
  datatype Credential = NoToken | InvalidToken | Bearer(claims: Claims)

  /** An HTTP reply: a JSON or file body, an error status, or none at all (an unhandled rejection). */
  datatype Outcome<T> = Ok(value: T) | Fail(status: nat, message: string) | NoReply

  datatype Handled<T> = Handled(store: Store, outcome: Outcome<T>)

  /**
   * Per-request environment: the clock (`Date.now()`), the client address,
   * whether the request's first save to the `SecurityLog` collection
   * succeeds, whether a second save in the same request (a catch block's,
   * after the first threw) succeeds, and the `error.message` a failing save
   * throws.
   */
  datatype Ctx = Ctx(now: nat, ip: string, logWritable: bool, retryWritable: bool, saveError: string)

  /** The context of a catch block's save once the first save has thrown. */
  function Retry(ctx: Ctx): (r: Ctx)
    ensures r.logWritable == ctx.retryWritable
    ensures r.now == ctx.now && r.ip == ctx.ip
  {
    ctx.(logWritable := ctx.retryWritable)
  }

  /** Directory holding every encrypted blob. */
  const ENCRYPTED_DIR := "encrypted"

  function PathOf(filename: string): string {
    ENCRYPTED_DIR + "/" + filename
  }

  /** Some registered user has this id (`User.findById`). */
  predicate Registered(st: Store, id: Id) {
    exists i :: 0 <= i < |st.users| && st.users[i].id == id
  }

  datatype AuthResult = Authenticated(claims: Claims) | Rejected(status: nat, message: string)

  /** `authenticateToken`: a token must be present, verify, and name an existing user. */
  function Authenticate(st: Store, cred: Credential): (r: AuthResult)
    ensures r.Authenticated? <==> cred.Bearer? && Registered(st, cred.claims.id)
    ensures r.Authenticated? ==> r.claims == cred.claims
    ensures r.Rejected? ==> r.status == 401 || r.status == 403
  {
    match cred
    case NoToken => Rejected(401, "No token provided")
    case InvalidToken => Rejected(403, "Invalid token")
    case Bearer(c) =>
      match FindFirst(st.users, (u: User) => u.id == c.id)
      case Some(_) => Authenticated(c)
      case None => Rejected(403, "User not found")
  }

  const ANONYMOUS := "Anonymous"

  /** `user?.name || 'Anonymous'`. */
  function DisplayName(name: Option<string>): (r: string)
    ensures r != ""
    ensures name.Some? && name.value != "" ==> r == name.value
  {
    if name.Some? && name.value != "" then name.value else ANONYMOUS
  }

  /**
   * `logSecurityEvent(event, user, status, details, ip)`. The principal is
   * given by its name, `None` for a null principal or one without a name.
   * A failed save is caught, so the function is total and only the log
   * can change.
   */
  function LogSecurityEvent(st: Store, event: string, name: Option<string>, status: string, details: string, ctx: Ctx): (r: Store)
    ensures r.(securityLog := st.securityLog) == st
    ensures ctx.logWritable <==> |r.securityLog| == |st.securityLog| + 1
    ensures !ctx.logWritable ==> r.securityLog == st.securityLog
    ensures ctx.logWritable ==> r.securityLog[..|st.securityLog|] == st.securityLog
    ensures ctx.logWritable ==>
      var e := r.securityLog[|st.securityLog|];
      && e.event == event && e.status == status && e.details == details
      && e.timestamp == ctx.now && e.ipAddress == ctx.ip
      && e.user == Some(DisplayName(name)) && e.user.value != ""
  {
    if ctx.logWritable then
      st.(securityLog := st.securityLog + [SecurityEvent(ctx.now, event, Some(DisplayName(name)), status, details, ctx.ip)])
    else st
  }

  function Quoted(s: string): string {
    "\"" + s + "\""
  }

  function UploadDate(f: FileRecord): int { f.uploadDate }
  function VaultUploadDate(v: VaultItem): int { v.uploadDate }
  function EventTime(e: SecurityEvent): int { e.timestamp }
}
