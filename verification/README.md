# Teacher–Student Secure Portal, modelled in Dafny

This project models the server core of the Teacher–Student Secure Portal as a
functional state machine, together with the pure logic of two client
components.

**Server (`server/server.js`)**

- The store holds users, shared-file records, personal-vault items, the
  security-event log and the encrypted blobs on disk.
- Each route is a function from a store, a credential and the request to a
  `Handled` value: the new store plus the reply. The reply is `Ok`, a `Fail`
  carrying the HTTP status and message, or `NoReply`. `NoReply` is what
  happens when a vault route's error handler throws again.
- Covered routes:
  - register and login;
  - shared upload, own list, shared list, download and delete;
  - vault upload, list, download and delete;
  - the security-log query.

**Utilities**

- `server/utils/auditTrail.js`: the audit trail and its two queries.
- `server/middleware/fileAccessTracker.js`: the access tracker's wrapped `send`.
- `server/utils/fileIntegrity.js`: the integrity helpers.

**Client components**

- `frontend/src/components/PersonalVault.js`: the tag field's parse/format
  pair, the upload dialog, and the list after a delete.
- `frontend/src/components/SecurityVisualizer.js`: the stepper, the "Round 1"
  byte transform and the encrypt/decrypt/reset handlers.

**What becomes a parameter**

- AES-256-CBC, scrypt, PBKDF2 and bcrypt are function-valued fields of
  datatypes. The laws that proofs need, such as the AES round trip, are ghost
  predicates stated as preconditions: `Cipher.RoundTrips`,
  `Accounts.HasherSound`.
- SHA-256 is a function parameter.
- Randomness is a parameter: the IV and the filename nonce.
- So are the clock, the client IP, whether the first and a second save to
  the security log succeed, and the error a failing save throws.
- The hex codec of the IV is concrete and follows Node's
  `Buffer.from(s, 'hex')`: decoding stops at the first pair that is not hex.
- Document ids come from a counter (`Store.nextId`). A route parameter
  names an id when Mongoose's cast accepts it (`ObjectIds.Cast`): 24 hex
  digits. Any other text makes the query throw.
- Mongoose `findOne` is the first match in insertion order.
- `.sort({ field: -1 })` is a stable insertion sort, newest first.

**Modules**

- `types`, `text`, `hex` and `collections` are shared helpers (filter, find,
  sort, limit); `object_id` is the cast of a route parameter to an id.
- `cipher`, `server_state`, `accounts`, `shared_files`, `vault` and
  `security_logs` follow `server/server.js`.
- `audit_trail`, `file_access_tracker` and `file_integrity` follow the server
  utilities.
- `personal_vault` and `security_visualizer` follow the client components.
- `invariants` holds the store invariant that every route preserves.
- `scenarios` chains routes end to end.

## Model

| member | source | states |
|---|---|---|
| ServerState.Authenticate | server/server.js:152-178 | a request passes iff it carries a token whose user id is registered; the claims are passed through unchanged; otherwise the reply is 401 (no token) or 403 (bad token, unknown user) |
| ServerState.DisplayName | server/server.js:662-667 | the name written into an event is never empty: the caller's name when present, otherwise `Anonymous` |
| ServerState.LogSecurityEvent | server/server.js:662-675 | with a writable log exactly one event is appended with the given fields, the clock and the IP, and nothing else in the store changes; a failing save is swallowed and changes nothing |
| Cipher.EncryptFile | server/server.js:181-194 | the returned IV is 32 lower-case hex digits decoding to the fresh IV; the data is the cipher applied with the single process-wide key |
| Cipher.DecryptFile | server/server.js:196-205 | an IV string that does not decode to 16 bytes never decrypts |
| Cipher.DecryptEncryptFile | server/server.js:181-205 | decrypting what `encryptFile` produced, with the hex IV it returned, gives back the buffer |
| Cipher.MissingIvNeverDecrypts | server/server.js:196-205 | a record without an IV cannot be decrypted |
| Hex.DecodeEncode | server/server.js:190-198 | `Buffer.from(iv.toString('hex'), 'hex')` returns the IV |
| Hex.EncodeDecode | server/server.js:190-198 | every lower-case hex string is the encoding of what it decodes to |
| Accounts.Register | server/server.js:209-246 | missing field → 400 `All fields are required`; taken email → 400 `Email already registered`; success iff all fields are present, the email is free and the role is valid; on success exactly one user is appended with the next id and the hashed password, and the token carries no name; on failure the store is unchanged |
| Accounts.RegisterKeepsEmailsUnique | server/server.js:214-220 | registration never creates a second user with an existing email |
| Accounts.Login | server/server.js:248-303 | only the security log changes; an unknown email → 401 `Invalid credentials` and an `Anonymous` error event; for the first user with the email, a password the hasher accepts always logs in, with a token and user view carrying that user's id, role and name and a success event, and one it rejects → 401; a request without a password field → 500 `Server error` and nothing logged; success only for a stored user whose password the hasher accepts |
| Accounts.RegisterThenLogin | server/server.js:209-303 | with a sound hasher, logging in with the credentials just registered succeeds with the new user's id, role and name |
| SharedFiles.UploadFile | server/server.js:306-354 | no file → 400 and nothing stored; otherwise exactly one record is appended with the caller as uploader, the hex IV of the fresh IV, `watermarked` false, an empty access log and no `originalPath`; earlier records are untouched; the blob written is the encryption of the buffer |
| SharedFiles.ListOwn | server/server.js:356-366 | exactly the caller's own records, each as often as stored, newest upload first |
| SharedFiles.TeacherIds | server/server.js:372-373 | the set holds exactly the ids of users whose role is teacher |
| SharedFiles.ListShared | server/server.js:368-389 | a teacher gets every record; a student gets exactly the records uploaded by a teacher; both are newest first |
| SharedFiles.Download | server/server.js:391-458 | unknown name → 404; missing blob → 404; missing IV → 500; on success the reply is the decryption of the stored blob with the record's type and name, and exactly one `DOWNLOAD` entry for the caller is appended to that record's access log; no error changes the store |
| SharedFiles.DownloadIgnoresCaller | server/server.js:391-398 | any two registered callers get the same reply: download checks neither role nor owner |
| SharedFiles.Delete | server/server.js:460-483 | a `:fileId` that is not 24 hex digits makes the query throw: 500 `Error deleting file` and nothing changes; an id that casts is handled by `DeleteOwned`; no success without a well-formed id |
| SharedFiles.DeleteOwned | server/server.js:462-482 | a record the caller does not own → 404; a missing blob → 500 with nothing changed; otherwise the blob is unlinked before `originalPath` is, and the record is removed only when both unlinks succeed |
| ObjectIds.Cast | server/server.js:462-465 | a route parameter names an id exactly when it is 24 hex digits of either case; anything else is the cast error |
| ObjectIds.ValueOfText | server/server.js:462-465 | the padded hex text of every id below 16^k spells that id back |
| ObjectIds.CastText | server/server.js:608-611 | the 24-digit text of an id casts to that id |
| ObjectIds.TextOfValue | server/server.js:608-611 | a lower-case digit string is the text of the id it casts to: the cast loses nothing |
| Invariants.EmptyWf | server/server.js:80-145 | the empty store satisfies the invariant |
| Invariants.RegisterKeepsWf | server/server.js:209-246 | registration preserves unique emails, fresh distinct ids and the absence of `originalPath` |
| Invariants.LoginKeepsWf | server/server.js:248-303 | login preserves the invariant |
| Invariants.UploadKeepsWf | server/server.js:306-354 | shared upload preserves the invariant |
| Invariants.DownloadKeepsWf | server/server.js:391-458 | shared download preserves the invariant |
| Invariants.DeleteNeverSucceeds | server/server.js:460-483 | in a well-formed store shared delete never succeeds and never removes a record; when the caller owns the file and its blob exists, the blob is gone and the reply is 500 `Error deleting file` |
| Invariants.DeleteKeepsWf | server/server.js:460-483 | shared delete preserves the invariant |
| Invariants.VaultUploadKeepsWf | server/server.js:486-543 | vault upload preserves the invariant |
| Invariants.VaultDownloadKeepsWf | server/server.js:556-604 | vault download preserves the invariant |
| Invariants.VaultDownloadKeepsIds | server/server.js:556-604 | a vault download changes no user, no shared record, no id and the number of vault items |
| Invariants.VaultDeleteKeepsWf | server/server.js:606-641 | vault delete preserves the invariant |
| Invariants.VaultDeleteRemovesFound | server/server.js:608-626 | in a well-formed store, for an id text that casts, `deleteOne({_id})` removes exactly the item the owner's lookup found |
| Vault.VaultFilename | server/server.js:502 | vault blob names start with `vault-` |
| Vault.CategoryText | server/server.js:514 | a missing or empty category becomes `other`; any other value is kept |
| Vault.ValidateForm | server/server.js:514-520 | the form is accepted iff the tags are not malformed JSON and the category is one of the five schema values; malformed tags fail with the parser's message; absent tags become `[]` |
| Vault.VaultUpload | server/server.js:486-543 | no file → 400; otherwise the blob is written first; success iff the form validates; one item is appended with the caller as owner, the next id, the parsed category and tags, and `lastAccessed` = upload time; one `File Upload` event (success or error) is logged; a rejected form → 500 `Failed to store in vault` with no item added |
| Vault.VaultList | server/server.js:545-554 | exactly the caller's own items, each as often as stored, newest first |
| Vault.VaultDownload | server/server.js:556-604 | a name the caller does not own → 404 and nothing changes; success iff the blob exists, decrypts and the event can be saved; then the bytes are the decryption of the blob, only that item's `lastAccessed` changes, and one `File Download` success event is appended; a 500 appends one error event and changes nothing else, except that when the inline event save threw after decryption the `lastAccessed` stamp stays; when the catch's save throws too, no reply is sent |
| Vault.VaultDelete | server/server.js:606-641 | an `:itemId` that is not 24 hex digits makes the query throw: the catch logs a `File Delete` error event carrying the cast error and answers 500 `Error deleting vault item` (no reply when that save throws); it is never a 404 and never a success; an id that casts is handled by `VaultDeleteOwned` |
| Vault.VaultDeleteOwned | server/server.js:608-640 | an id the caller does not own → 404 and nothing changes; success iff the blob exists and the event can be saved; then the blob and the first item with the id are removed and one `File Delete` event is appended; when the inline save throws, both removals stay and the reply is the catch's 500 (or none); a missing blob → 500 or no reply, with only the log changed; every 500 appends exactly one error event, and changes nothing else unless the inline save threw |
| Vault.StrongKeyUnused | server/server.js:493-501 | vault upload and download do not depend on the PBKDF2 function: the per-user key is computed but never used |
| SecurityLogs.Logs | server/server.js:644-659 | only authenticated callers are answered; the reply holds at most 100 events, newest first, all taken from the log; a student sees only events whose user equals their name; its size is stated by `LogsSize` |
| SecurityLogs.LogsSize | server/server.js:647-651 | the reply holds every visible event while there are at most 100, and exactly 100 once there are more (with `LimitKeepsNewest`: the 100 newest) |
| SecurityLogs.TeacherSeesAll | server/server.js:647-651 | a teacher gets every logged event while there are at most 100 |
| SecurityLogs.StudentSeesOwnName | server/server.js:647-651 | a student gets exactly the events whose user string equals their name, whoever they were written for |
| SecurityLogs.LimitKeepsNewest | server/server.js:649-651 | no visible event cut by the limit is newer than an event returned |
| SecurityLogs.NameDecidesVisibility | server/server.js:647 | two students with the same name see the same events |
| Collections.Select | server/server.js:649-650 | a find-then-sort is sorted newest first and holds each matching element exactly as often as the source |
| Collections.TakeKeepsNewest | server/server.js:651 | limiting a newest-first sequence keeps the newest elements |
| AuditTrail.Log | server/utils/auditTrail.js:20-27 | a save appends exactly one record with the given fields and the time; earlier records are kept; a failed save leaves the trail unchanged and throws nothing |
| AuditTrail.GetResourceHistory | server/utils/auditTrail.js:29-33 | exactly the records for the resource, each as often as stored, newest first |
| AuditTrail.GetUserActivity | server/utils/auditTrail.js:35-38 | exactly the records by the user, each as often as stored, newest first |
| AuditTrail.LogPreservesOtherHistories | server/utils/auditTrail.js:20-33 | logging a record for one resource leaves the history of every other resource unchanged |
| AuditTrail.LogExtendsOwnHistory | server/utils/auditTrail.js:20-33 | a saved record joins its own resource's history |
| AuditTrail.LogPreservesActivity | server/utils/auditTrail.js:20-38 | logging never removes anything from anyone's activity |
| FileAccessTracker.Track | server/middleware/fileAccessTracker.js:8-39 | one pass of the wrapper: when the id casts, the file exists and the caller is known, exactly one access entry (caller, method, time, IP) is appended to that file and nothing else changes; one `FILE_ACCESS` audit record with the file id, method and original filename is added unless its save fails; a malformed id, a missing file, a missing caller or a failed lookup or save changes nothing |
| FileAccessTracker.TrackKeepsLookup | server/middleware/fileAccessTracker.js:10-20 | a pass keeps every file id in place, so a second pass finds the same file |
| FileAccessTracker.TrackedSend | server/middleware/fileAccessTracker.js:7-41 | a string or `Buffer` body reaches the original `send` once, unchanged, and is tracked once; an object body makes the original `send` run twice, with the object and then with its JSON text, which the response carries, because Express's `send` re-enters the wrapper through `res.json`: two access entries and two audit records |
| FileIntegrity.GenerateFileHash | server/utils/fileIntegrity.js:5-7 | the hash is the lower-case hex encoding of the SHA-256 digest, 64 characters for a 32-byte digest |
| FileIntegrity.VerifyCharacterisation | server/utils/fileIntegrity.js:9-12 | verification succeeds iff the stored hash is lower-case hex that decodes to the buffer's digest; any other string is rejected |
| FileIntegrity.VerifyOwnHash | server/utils/fileIntegrity.js:5-12 | a buffer always verifies against its own hash |
| FileIntegrity.GenerateFileMetadata | server/utils/fileIntegrity.js:14-25 | the size is the buffer length, the hash verifies against the buffer, and `lastVerified` equals `timestamp` |
| PersonalVault.ParseTags | frontend/src/components/PersonalVault.js:503 | every parsed tag is non-empty, trimmed and comma-free |
| PersonalVault.ParseConcat | frontend/src/components/PersonalVault.js:503 | parsing at a comma parses each side on its own, keeping the input order |
| PersonalVault.ParseFormat | frontend/src/components/PersonalVault.js:500-503 | displaying well-formed tags with `join(', ')` and parsing the display gives the same tags back |
| PersonalVault.ParseIsIdempotent | frontend/src/components/PersonalVault.js:500-503 | the displayed value is a fixed point of the change handler |
| PersonalVault.TypeKeyAsWritten | frontend/src/components/PersonalVault.js:500-503 | one keystroke in the field as written yields well-formed tags |
| PersonalVault.TypedCommaIsLost | frontend/src/components/PersonalVault.js:500-503 | a comma typed after the shown tags disappears at once: the tags are unchanged |
| PersonalVault.SecondTagCannotBeTyped | frontend/src/components/PersonalVault.js:500-503 | typing `,` then `b` after the tag `a` gives the single tag `ab` |
| PersonalVault.EditTagsText | frontend/src/components/PersonalVault.js:500-503 | with the raw text kept, typing a comma and more text adds the tags of that text after the existing ones |
| PersonalVault.CorrectedTypingAddsTag | frontend/src/components/PersonalVault.js:500-503 | with the raw text kept, typing `, t` after the shown tags appends the tag `t` |
| PersonalVault.MenuCategoryParses | frontend/src/components/PersonalVault.js:466-470 | each of the five menu values is a category the server accepts |
| PersonalVault.MenuFormsAreAccepted | frontend/src/components/PersonalVault.js:84-91 | every form the dialog can post passes the server's validation with its tags intact |
| PersonalVault.HandleUpload | frontend/src/components/PersonalVault.js:84-117 | runs on the corrected page state, whose tag field is the raw `tagsText` (see Findings) rather than the `tags` array of lines 91 and 110: no file selected → nothing changes; a rejected POST sets the upload error and clears `uploading`; after a successful POST the dialog closes, the selection clears and the details reset to `other`, empty, no tags; the list is the refreshed one |
| PersonalVault.UploadClearsSelection | frontend/src/components/PersonalVault.js:85-110 | after a successful upload a second click does nothing and the tags are empty |
| PersonalVault.HandleDelete | frontend/src/components/PersonalVault.js:143-162 | a failed DELETE only sets the error; a successful one removes every item with the id and keeps every other item as often as before |
| PersonalVault.DeleteCutsOneItem | frontend/src/components/PersonalVault.js:157 | with distinct ids the list loses exactly that one item and keeps the rest in order, the same list the server keeps |
| SecurityVisualizer.Next | frontend/src/components/SecurityVisualizer.js:144-146 | next moves one stage forward and stays at the last stage |
| SecurityVisualizer.Prev | frontend/src/components/SecurityVisualizer.js:148-150 | previous moves one stage back and stays at stage 0 |
| SecurityVisualizer.NextPrevInverse | frontend/src/components/SecurityVisualizer.js:144-150 | from a non-last stage previous undoes next, and vice versa from a non-first stage; next at the last stage and previous at stage 0 change nothing |
| SecurityVisualizer.ClicksStayInRange | frontend/src/components/SecurityVisualizer.js:78-150 | every sequence of clicks keeps the stage within the five transformations |
| SecurityVisualizer.ForwardReachesLast | frontend/src/components/SecurityVisualizer.js:144-146 | enough next clicks reach the last stage from anywhere |
| SecurityVisualizer.Round1 | frontend/src/components/SecurityVisualizer.js:103 | each displayed value is the byte plus 0x63 modulo 256, a byte again |
| SecurityVisualizer.UndoRound1 | frontend/src/components/SecurityVisualizer.js:103 | the reference inverse: adding the offset back gives the original byte |
| SecurityVisualizer.Round1Bijective | frontend/src/components/SecurityVisualizer.js:103 | the Round 1 display and its inverse undo each other |
| SecurityVisualizer.Round1Injective | frontend/src/components/SecurityVisualizer.js:103 | different blocks have different Round 1 displays |
| SecurityVisualizer.HandleEncrypt | frontend/src/components/SecurityVisualizer.js:314-351 | empty input → nothing changes; a failure leaves `isProcessing` set; a success stores the ciphertext, key and IV, clears the decrypted text and `isProcessing` |
| SecurityVisualizer.Act | frontend/src/components/SecurityVisualizer.js:407-479 | a click on a disabled button changes nothing: Encrypt is disabled without input or while busy (line 423), Decrypt without a ciphertext or while busy (line 479) |
| SecurityVisualizer.BusyUntilReset | frontend/src/components/SecurityVisualizer.js:314-386 | while the page is busy, every sequence of actions without Reset keeps it busy and changes nothing but the typed input |
| SecurityVisualizer.FailedCallLocksPage | frontend/src/components/SecurityVisualizer.js:314-386 | an encryption or decryption that throws leaves `isProcessing` set (the catch blocks never clear it); afterwards only Reset makes the page idle, and the ciphertext and decrypted text stay as they were |
| SecurityVisualizer.EncryptThenDecrypt | frontend/src/components/SecurityVisualizer.js:314-375 | with Web Crypto obeying its round trip, a successful Encrypt enables Decrypt, and Decrypt then shows the typed text again, keeps the ciphertext and leaves the page idle |
| SecurityVisualizer.HandleReset | frontend/src/components/SecurityVisualizer.js:377-386 | every field returns to the initial state |
| SecurityVisualizer.Render | frontend/src/components/SecurityVisualizer.js:140-142 | the stage returns to 0 exactly when the ciphertext changes |
| SecurityVisualizer.ResetRewindsOnlyAfterEncrypt | frontend/src/components/SecurityVisualizer.js:140-142 | reset rewinds the stepper only if a ciphertext was shown |
| SecurityVisualizer.NewCiphertextRewinds | frontend/src/components/SecurityVisualizer.js:140-142 | a successful encryption with a new ciphertext starts the walk-through at stage 0 |
| Scenarios.UploadThenDownload | server/server.js:306-458 | a file uploaded by anyone can be downloaded by any registered user, teacher or student; the reply is the original bytes, type and name, and the record gains one access entry for the downloader |
| Scenarios.SharedDownloadStored | server/server.js:391-458 | the first record with a name, whose blob decrypts, is returned to any caller, and the caller's access is appended |
| Scenarios.VaultUploadThenDownload | server/server.js:486-604 | an accepted vault upload can be downloaded by its owner; the reply is the uploaded bytes, and the item then records the download time |
| Scenarios.DownloadStored | server/server.js:556-604 | the owner's download of the first item with a name decrypts it and stamps `lastAccessed` |
| Scenarios.OthersCannotDeleteVaultItem | server/server.js:606-617 | another user's delete of a fresh vault item, named by the text of its id → 404 and the store is unchanged |
| Scenarios.FilenamesDisjoint | server/server.js:502 | a vault blob name never equals a shared blob name (`<time>-encrypted-<n>.pdf`, line 313), so the two kinds never overwrite each other on disk |

## Left out

- **I/O**: console logging, Express routing and CORS, multer parsing, and the
  MongoDB connection. Queries and saves are sequence updates, and `fs`
  reads, writes and unlinks are map updates on `Store.disk`.
- **Failing writes**: database writes other than the security log's are
  assumed to succeed. The audit trail and the access tracker carry explicit
  failure flags. A failing SecurityLog save is modelled because it changes
  the reply of the vault routes.
- **Cryptography and authentication**:
  - the AES-256-CBC, scrypt, PBKDF2, SHA-256 and bcrypt primitives are
    parameters governed only by the laws stated;
  - JWT signing, verification and expiry are not modelled: a bearer token is
    its claims, and a token that does not verify is `InvalidToken`;
  - the Web Crypto calls of the visualiser are parameters.
- **Concurrency**: the interleaving of async handlers is not modelled. Each
  request is one atomic transition.
- **Timestamps**: dates are a natural-number clock.
- **Ids**: `ObjectId` is an id from a counter. Document ids and user ids share
  the counter.
- **Error text**: `error.message` texts are approximated. `NoSuchFile` gives
  the ENOENT text, `DECRYPT_ERROR` the OpenSSL reason, and
  `ObjectIds.CastError` Mongoose's cast message. A failing security-log
  save throws `Ctx.saveError`.
- **Tags parsing**: `JSON.parse` of the tags field is abstracted to
  well-formed (`TagsJson`), absent or malformed (`MalformedJson`) input.
- **Not modelled**:
  - `server/utils/watermark.js`, which does floating-point PDF layout;
  - `server/middleware/rateLimiter.js`, a library wrapper;
  - `server/test-encryption.js`, a test script;
  - the debug route `/api/debug/files`;
  - `populate` joins;
  - server start-up.
- **File model**: `server/models/File.js` is used only for the record shape
  in the access tracker. Its `permissions` and `integrityChecks` fields are
  never enforced.
- **Sorting**: ties in `.sort` are resolved by insertion order. MongoDB does
  not promise this, and no contract depends on it.
- **Visualiser**: it is modelled only as far as the stepper, Round 1 and the
  handlers. The base64 "Final Round" displays, copy-to-clipboard and
  rendering are left out.
- **React**: the client fetch code, `fetchVaultItems` (its outcome is a
  parameter of `HandleUpload`), file selection and dialog open/close
  handlers are left out.
- Cipher.DecryptFile: states only that a bad IV never decrypts. What a good
  IV yields is the decrypt parameter's business; the round trip is in
  `Cipher.DecryptEncryptFile`.
- SecurityVisualizer.HandleDecrypt: the Base64 decoding of the ciphertext
  and the Web Crypto decryption are one parameter, the decrypted text or
  `None`. `SecurityVisualizer.WebCrypto` and its law `Sound` connect it to
  the encryption.
- SecurityVisualizer.EncryptThenDecrypt: `Sound` takes the UTF-8 round trip
  of `TextEncoder` and `TextDecoder` for granted. Text holding a lone
  surrogate comes back with U+FFFD in its place.
- Accounts.Login: the email is a string. A request without an email field,
  which Mongoose turns into a query on a missing email, is not modelled.
- ObjectIds.Cast: a 12-character parameter, which the driver also accepts as
  twelve raw bytes, is treated as malformed. The text of a counter id is its
  value in 24 hex digits.
- FileAccessTracker.TrackedSend: the second pass of an object body sees the
  same clock and the same faults as the first. A number or `null` body,
  which Express sends without `res.json`, is not distinguished from text.
- **Tracker mounting**: `trackFileAccess` is not mounted on any route in
  `server/server.js`; it is modelled on its own.
- **Per-user vault key isolation**: this is not a property of the code and is
  not stated. `Vault.StrongKeyUnused` states the opposite.

The project describes security goals that its code does not meet. The model
follows the code:

- A vault key derived per user is promised. In the code, `strongKey` is
  computed but never reaches `encryptFile`/`decryptFile`, which always use
  the process-wide key.
- Students are promised read access to teacher-authored shared files only.
  In the code, shared download checks no role and no owner. Only the listing
  filters by role.
- A delete that removes the record is promised. In the code, shared delete
  unlinks `originalPath`, which upload never sets, so it never removes a
  record (`Invariants.DeleteNeverSucceeds`).
- Access-log actions are promised as READ/WRITE/DELETE. In the code,
  download writes `DOWNLOAD` and the tracker writes the HTTP method.
- A hash stored and verified on read, and audit records for each operation,
  are promised. In the code, no route calls the integrity helpers or the
  audit trail. They are modelled on their own.
- An authorization failure logged as an error event is promised. In the
  code, a rejected token logs nothing, and another user's vault item is a
  404.
- Logging failures that never mask the reply are promised. In the code,
  when the vault download or delete route's inline save fails, its catch
  block saves again and answers 500, although the download stamp or the
  deletion has already happened. If that save fails too, no reply is sent
  (`NoReply`).
- Tamper detection is promised. In the code, nothing detects tampering
  beyond what the cipher's padding check happens to catch, and the model
  cannot say more than the decrypt parameter does.

## Findings

| source | as written | input that shows it | evidently intended | confidence | as-written member | corrected member |
|---|---|---|---|---|---|---|
| frontend/src/components/PersonalVault.js:500-503 | the tag field displays `tags.join(', ')` and each change replaces the tags by the parse of the new text, so a comma typed at the end is parsed away before the next key arrives | tags `["a"]`, then typing `,` and `b`: the field shows `a`, then `ab`, and the tags become `["ab"]` | a comma separates tags: typing `, b` after `a` gives `["a", "b"]` | medium, not executed | PersonalVault.SecondTagCannotBeTyped | PersonalVault.CorrectedTypingAddsTag |

The corrected field keeps the raw text (`FileDetails.tagsText`). It parses
that text only when the form is built (`PersonalVault.Tags`).
`PersonalVault.TypedCommaIsLost` proves the general as-written behaviour: a
typed comma never changes the tags.
