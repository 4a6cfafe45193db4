/**
 * What every route of server/server.js keeps true of the store: emails are
 * unique (the `unique` index on `User.email`), every document id was issued
 * by the counter and is issued once, and no shared-file record carries an
 * `originalPath`, because the upload route never sets one. The last fact is
 * why `DELETE /api/files/:fileId` can never succeed.
 */
module Invariants {
  import opened Types
  import opened Collections
  import opened ServerState
  import Cipher
  import Accounts
  import SharedFiles
  import Vault
  import ObjectIds

  ghost predicate UserIdsFresh(st: Store) {
    && (forall i :: 0 <= i < |st.users| ==> st.users[i].id < st.nextId)
    && (forall i, j :: 0 <= i < j < |st.users| ==> st.users[i].id != st.users[j].id)
  }

  ghost predicate FileIdsFresh(st: Store) {
    && (forall i :: 0 <= i < |st.files| ==> st.files[i].id < st.nextId)
    && (forall i, j :: 0 <= i < j < |st.files| ==> st.files[i].id != st.files[j].id)
  }

  ghost predicate VaultIdsFresh(st: Store) {
    && (forall i :: 0 <= i < |st.vault| ==> st.vault[i].id < st.nextId)
    && (forall i, j :: 0 <= i < j < |st.vault| ==> st.vault[i].id != st.vault[j].id)
  }

  ghost predicate NoOriginalPaths(st: Store) {
    forall i :: 0 <= i < |st.files| ==> st.files[i].originalPath.None?
  }

  /** The store invariant. */
  ghost predicate Wf(st: Store) {
    && Accounts.UniqueEmails(st)
    && UserIdsFresh(st) && FileIdsFresh(st) && VaultIdsFresh(st)
    && NoOriginalPaths(st)
  }

  /** The store the server starts from. */
  const EMPTY := Store([], [], [], [], map[], 0)

  lemma EmptyWf()
    ensures Wf(EMPTY)
  {
  }

  lemma RegisterKeepsWf(st: Store, form: Accounts.RegisterForm, salt: nat, h: Accounts.Hasher)
    requires Wf(st)
    ensures Wf(Accounts.Register(st, form, salt, h).store)
  {
    Accounts.RegisterKeepsEmailsUnique(st, form, salt, h);
  }

  lemma LoginKeepsWf(st: Store, email: string, password: Option<string>, h: Accounts.Hasher, ctx: Ctx)
    requires Wf(st)
    ensures Wf(Accounts.Login(st, email, password, h, ctx).store)
  {
    var r := Accounts.Login(st, email, password, h, ctx).store;
    assert r.users == st.users && r.files == st.files && r.vault == st.vault && r.nextId == st.nextId;
  }

  lemma UploadKeepsWf(st: Store, cred: Credential, file: Option<SharedFiles.Upload>, ctx: Ctx,
                      p: Cipher.Primitives, freshIv: Cipher.Iv, nonce: nat)
    requires Wf(st)
    ensures Wf(SharedFiles.UploadFile(st, cred, file, ctx, p, freshIv, nonce).store)
  {
  }

  lemma DownloadKeepsWf(st: Store, cred: Credential, filename: string, ctx: Ctx, p: Cipher.Primitives)
    requires Wf(st)
    ensures Wf(SharedFiles.Download(st, cred, filename, ctx, p).store)
  {
    var r := SharedFiles.Download(st, cred, filename, ctx, p);
    if r.outcome.Ok? {
      var i := FindFirst(st.files, SharedFiles.Named(filename)).value;
      assert forall j :: 0 <= j < |st.files| ==> r.store.files[j].id == st.files[j].id;
      assert forall j :: 0 <= j < |st.files| ==> r.store.files[j].originalPath == st.files[j].originalPath;
    }
  }

  /**
   * In a well-formed store no shared file can be deleted: when the caller
   * owns the file and its blob exists, the blob is removed and the record
   * stays behind, answered with 500.
   */
  lemma DeleteNeverSucceeds(st: Store, cred: Credential, fileId: string)
    requires Wf(st)
    ensures !SharedFiles.Delete(st, cred, fileId).outcome.Ok?
    ensures var r := SharedFiles.Delete(st, cred, fileId);
      r.store.files == st.files && r.store.disk.Keys <= st.disk.Keys
    ensures (Authenticate(st, cred).Authenticated? && ObjectIds.Cast(fileId).Some?
             && var id := ObjectIds.Cast(fileId).value;
                && FindFirst(st.files, SharedFiles.OwnedWithId(id, cred.claims.id)).Some?
                && st.files[FindFirst(st.files, SharedFiles.OwnedWithId(id, cred.claims.id)).value].path in st.disk)
      ==> var f := st.files[FindFirst(st.files, SharedFiles.OwnedWithId(ObjectIds.Cast(fileId).value, cred.claims.id)).value];
          SharedFiles.Delete(st, cred, fileId) == Handled(st.(disk := st.disk - {f.path}), Fail(500, "Error deleting file"))
  {
  }

  lemma DeleteKeepsWf(st: Store, cred: Credential, fileId: string)
    requires Wf(st)
    ensures Wf(SharedFiles.Delete(st, cred, fileId).store)
  {
    DeleteNeverSucceeds(st, cred, fileId);
  }

  lemma VaultUploadKeepsWf(st: Store, cred: Credential, file: Option<SharedFiles.Upload>, form: Vault.VaultForm, ctx: Ctx,
                           p: Cipher.Primitives, freshIv: Cipher.Iv)
    requires Wf(st)
    ensures Wf(Vault.VaultUpload(st, cred, file, form, ctx, p, freshIv).store)
  {
    var r := Vault.VaultUpload(st, cred, file, form, ctx, p, freshIv);
    if r.outcome.Ok? {
      assert r.store.vault == st.vault + [r.outcome.value];
    }
  }

  lemma VaultDownloadKeepsWf(st: Store, cred: Credential, filename: string, ctx: Ctx, p: Cipher.Primitives)
    requires Wf(st)
    ensures Wf(Vault.VaultDownload(st, cred, filename, ctx, p).store)
  {
    var r := Vault.VaultDownload(st, cred, filename, ctx, p).store;
    VaultDownloadKeepsIds(st, cred, filename, ctx, p);
    assert r.users == st.users;
  }

  /** A download only stamps `lastAccessed` and appends to the log: every id stays where it was. */
  lemma VaultDownloadKeepsIds(st: Store, cred: Credential, filename: string, ctx: Ctx, p: Cipher.Primitives)
    ensures var r := Vault.VaultDownload(st, cred, filename, ctx, p).store;
      && r.users == st.users && r.files == st.files && r.nextId == st.nextId
      && |r.vault| == |st.vault|
      && forall j :: 0 <= j < |r.vault| ==> r.vault[j].id == st.vault[j].id
  {
    var r := Vault.VaultDownload(st, cred, filename, ctx, p).store;
    if r.vault != st.vault {
      var i := FindFirst(st.vault, Vault.OwnedNamed(filename, cred.claims.id)).value;
      assert r.vault == st.vault[i := Vault.WithAccess(st.vault[i], ctx.now)];
    }
  }

  lemma VaultDeleteKeepsWf(st: Store, cred: Credential, itemId: string, ctx: Ctx)
    requires Wf(st)
    ensures Wf(Vault.VaultDelete(st, cred, itemId, ctx).store)
  {
    if Authenticate(st, cred).Authenticated? && ObjectIds.Cast(itemId).Some? {
      VaultDeleteOwnedKeepsWf(st, cred.claims, ObjectIds.Cast(itemId).value, ctx);
    }
  }

  /** Removing one item keeps the others' ids distinct and below the counter. */
  lemma VaultDeleteOwnedKeepsWf(st: Store, c: Claims, itemId: Id, ctx: Ctx)
    requires Wf(st)
    ensures Wf(Vault.VaultDeleteOwned(st, c, itemId, ctx).store)
  {
    var r := Vault.VaultDeleteOwned(st, c, itemId, ctx);
    if r.store.vault != st.vault {
      var j := FindFirst(st.vault, Vault.HasItemId(itemId)).value;
      var v := r.store.vault;
      assert v == SharedFiles.RemoveAt(st.vault, j);
      assert r.store.users == st.users && r.store.files == st.files && r.store.nextId == st.nextId;
      forall a, b | 0 <= a < b < |v|
        ensures v[a].id != v[b].id
      {
        var a', b' := if a < j then a else a + 1, if b < j then b else b + 1;
        assert v[a] == st.vault[a'] && v[b] == st.vault[b'];
      }
    }
  }

  /** Under the invariant the first item with an id is the only one: `deleteOne` removes the item the owner found. */
  lemma VaultDeleteRemovesFound(st: Store, c: Claims, itemId: string, id: Id, ctx: Ctx)
    requires Wf(st) && Registered(st, c.id)
    requires ObjectIds.Cast(itemId) == Some(id)
    requires FindFirst(st.vault, Vault.OwnedWithId(id, c.id)).Some?
    requires st.vault[FindFirst(st.vault, Vault.OwnedWithId(id, c.id)).value].path in st.disk
    ensures Vault.VaultDelete(st, Bearer(c), itemId, ctx).store.vault
         == SharedFiles.RemoveAt(st.vault, FindFirst(st.vault, Vault.OwnedWithId(id, c.id)).value)
  {
    var i := FindFirst(st.vault, Vault.OwnedWithId(id, c.id)).value;
    var j := FindFirst(st.vault, Vault.HasItemId(id)).value;
    assert st.vault[i].id == id;
    assert j <= i;
    assert st.vault[j].id == id;
  }
}
