/**
 * End-to-end runs of the routes in server/server.js: what one request leaves
 * behind for the next.
 */
module Scenarios {
  import opened Types
  import opened Collections
  import opened ServerState
  import Text
  import Hex
  import Cipher
  import SharedFiles
  import Vault
  import Invariants
  import ObjectIds

  /** No shared file is stored under `name` yet. */
  predicate NameFree(st: Store, name: string) {
    forall i :: 0 <= i < |st.files| ==> st.files[i].filename != name
  }

  /**
   * A shared upload followed by a download of the returned name, by any
   * registered caller whatever their role, returns the uploaded bytes with
   * the recorded type and name, and appends one access entry for the
   * downloader.
   */
  lemma UploadThenDownload(st: Store, c1: Claims, c2: Claims, file: SharedFiles.Upload, ctx1: Ctx, ctx2: Ctx,
                           p: Cipher.Primitives, freshIv: Cipher.Iv, nonce: nat)
    requires Cipher.RoundTrips(p)
    requires Registered(st, c1.id) && Registered(st, c2.id)
    requires NameFree(st, SharedFiles.SharedFilename(ctx1.now, nonce))
    ensures var up := SharedFiles.UploadFile(st, Bearer(c1), Some(file), ctx1, p, freshIv, nonce);
      && up.outcome.Ok?
      && var down := SharedFiles.Download(up.store, Bearer(c2), up.outcome.value.filename, ctx2, p);
         && down.outcome == Ok(SharedFiles.FileDownload(file.buffer, file.mimetype, file.originalname))
         && |down.store.files| == |st.files| + 1
         && down.store.files[|st.files|].accessLog == [AccessEntry(c2.id, "DOWNLOAD", ctx2.now, ctx2.ip)]
  {
    var up := SharedFiles.UploadFile(st, Bearer(c1), Some(file), ctx1, p, freshIv, nonce);
    var st1 := up.store;
    var k := |st.files|;
    var rec := st1.files[k];
    var name := up.outcome.value.filename;
    assert Registered(st1, c2.id) by {
      var u :| 0 <= u < |st.users| && st.users[u].id == c2.id;
      assert st1.users[u] == st.users[u];
    }
    FindFirstAppended(st.files, rec, SharedFiles.Named(name));
    assert |Hex.Decode(rec.iv)| == Cipher.IV_LENGTH;
    assert st1.disk[rec.path] == p.encrypt(Cipher.EncryptionKey(p), freshIv, file.buffer);
    assert Cipher.DecryptFile(p, st1.disk[rec.path], rec.iv) == Some(file.buffer);
    SharedDownloadStored(st1, c2, k, ctx2, p, file.buffer);
  }

  /** Any registered caller's download of the first file with a name decrypts its blob and logs the access. */
  lemma SharedDownloadStored(st: Store, c: Claims, k: nat, ctx: Ctx, p: Cipher.Primitives, plain: Bytes)
    requires Registered(st, c.id)
    requires k < |st.files|
    requires FindFirst(st.files, SharedFiles.Named(st.files[k].filename)) == Some(k)
    requires st.files[k].path in st.disk && st.files[k].iv != ""
    requires Cipher.DecryptFile(p, st.disk[st.files[k].path], st.files[k].iv) == Some(plain)
    ensures var down := SharedFiles.Download(st, Bearer(c), st.files[k].filename, ctx, p);
      && down.outcome == Ok(SharedFiles.FileDownload(plain, st.files[k].contentType, st.files[k].originalname))
      && down.store.files == st.files[k := SharedFiles.WithEntry(st.files[k], AccessEntry(c.id, "DOWNLOAD", ctx.now, ctx.ip))]
  {
  }

  /** The owner has no vault item named `name` yet. */
  predicate VaultNameFree(st: Store, owner: Id, name: string) {
    forall i :: 0 <= i < |st.vault| ==> !(st.vault[i].filename == name && st.vault[i].owner == owner)
  }

  /**
   * A vault upload the server accepts can be downloaded by its owner, with
   * the uploaded bytes; the item then records the download time.
   */
  lemma VaultUploadThenDownload(st: Store, c: Claims, file: SharedFiles.Upload, form: Vault.VaultForm,
                                ctx1: Ctx, ctx2: Ctx, p: Cipher.Primitives, freshIv: Cipher.Iv)
    requires Cipher.RoundTrips(p)
    requires Registered(st, c.id) && ctx2.logWritable
    requires Vault.ValidateForm(form).Ok?
    requires VaultNameFree(st, c.id, Vault.VaultFilename(ctx1.now, file.originalname))
    ensures var up := Vault.VaultUpload(st, Bearer(c), Some(file), form, ctx1, p, freshIv);
      && up.outcome.Ok?
      && var down := Vault.VaultDownload(up.store, Bearer(c), up.outcome.value.filename, ctx2, p);
         && down.outcome == Ok(SharedFiles.FileDownload(file.buffer, file.mimetype, file.originalname))
         && down.store.vault[|st.vault|].lastAccessed == ctx2.now
  {
    var up := Vault.VaultUpload(st, Bearer(c), Some(file), form, ctx1, p, freshIv);
    var st1 := up.store;
    var item := up.outcome.value;
    assert Registered(st1, c.id) by {
      var u :| 0 <= u < |st.users| && st.users[u].id == c.id;
      assert st1.users[u] == st.users[u];
    }
    FindFirstAppended(st.vault, item, Vault.OwnedNamed(item.filename, c.id));
    assert st1.disk[item.path] == p.encrypt(Cipher.EncryptionKey(p), freshIv, file.buffer);
    assert Cipher.DecryptFile(p, st1.disk[item.path], item.iv) == Some(file.buffer);
    DownloadStored(st1, c, |st.vault|, ctx2, p, file.buffer);
  }

  /** The owner's download of the first item with its name decrypts that item's blob and stamps it. */
  lemma DownloadStored(st: Store, c: Claims, k: nat, ctx: Ctx, p: Cipher.Primitives, plain: Bytes)
    requires Registered(st, c.id) && ctx.logWritable
    requires k < |st.vault| && st.vault[k].owner == c.id
    requires FindFirst(st.vault, Vault.OwnedNamed(st.vault[k].filename, c.id)) == Some(k)
    requires st.vault[k].path in st.disk
    requires Cipher.DecryptFile(p, st.disk[st.vault[k].path], st.vault[k].iv) == Some(plain)
    ensures var down := Vault.VaultDownload(st, Bearer(c), st.vault[k].filename, ctx, p);
      && down.outcome == Ok(SharedFiles.FileDownload(plain, st.vault[k].contentType, st.vault[k].originalname))
      && down.store.vault[k].lastAccessed == ctx.now
  {
  }

  /**
   * Another user cannot delete a freshly uploaded vault item, named by the
   * text of its id: the request is answered 404 and nothing changes.
   */
  lemma OthersCannotDeleteVaultItem(st: Store, owner: Claims, other: Claims, file: SharedFiles.Upload, form: Vault.VaultForm,
                                    ctx1: Ctx, ctx2: Ctx, p: Cipher.Primitives, freshIv: Cipher.Iv, itemId: string)
    requires Invariants.Wf(st)
    requires Registered(st, owner.id) && Registered(st, other.id) && owner.id != other.id
    requires Vault.VaultUpload(st, Bearer(owner), Some(file), form, ctx1, p, freshIv).outcome.Ok?
    requires ObjectIds.Cast(itemId) == Some(st.nextId)
    ensures var up := Vault.VaultUpload(st, Bearer(owner), Some(file), form, ctx1, p, freshIv);
      Vault.VaultDelete(up.store, Bearer(other), itemId, ctx2)
        == Handled(up.store, Fail(404, "Item not found in vault"))
  {
    var up := Vault.VaultUpload(st, Bearer(owner), Some(file), form, ctx1, p, freshIv);
    var st1 := up.store;
    var item := up.outcome.value;
    assert Registered(st1, other.id) by {
      var u :| 0 <= u < |st.users| && st.users[u].id == other.id;
      assert st1.users[u] == st.users[u];
    }
    assert forall j :: 0 <= j < |st.vault| ==> st1.vault[j] == st.vault[j] && st.vault[j].id < item.id;
    assert st1.vault[|st.vault|] == item && item.owner != other.id;
    assert FindFirst(st1.vault, Vault.OwnedWithId(item.id, other.id)).None?;
  }

  /** A shared filename starts with a digit and a vault filename with `v`: the two never collide on disk. */
  lemma FilenamesDisjoint(now1: nat, nonce: nat, now2: nat, originalname: string)
    ensures SharedFiles.SharedFilename(now1, nonce) != Vault.VaultFilename(now2, originalname)
  {
    var shared := SharedFiles.SharedFilename(now1, nonce);
    var d := Text.Decimal(now1);
    assert shared[0] == d[0];
    assert '0' <= shared[0] <= '9';
    assert Vault.VaultFilename(now2, originalname)[0] == 'v';
  }
}
