/** Who may create, open and re-key a vault, and what a refusal means. */
module Passwords {
  import opened Binary
  import opened Constants
  import opened Envelopes
  import opened Externals
  import opened IndexCodec
  import opened Invariants
  import opened LegacyIndexes
  import opened Rekeying
  import opened Results
  import opened VaultHeaders
  import opened VaultIndexes
  import opened VaultModel

  /** Creation succeeds exactly when the password is long enough and every external step does; the vault is then empty. */
  lemma CreateExact(lib: Library, password: Bytes, salt: Option<Salt>, d: KeyDraws)
    ensures var r := Create(lib, password, salt, d);
      && (r.Ok? <==>
            && |password| >= MIN_PASSWORD_LEN && salt.Some? && d.nonce.Some? && d.lockEnc && d.lockHmac
            && DeriveKeys(lib, password, DefaultHeader(salt.value)).Ok?)
      && (r.Ok? ==>
            && Sound(r.value) && Genuine(lib, r.value.index) && KeyedBy(lib, r.value, password)
            && Secrets(lib, r.value.index) == map[] && r.value.header.kdfSalt == salt.value
            && r.value.index.nonceCounter == 0 && r.value.index.dataNonceCounter == 0)
      && (r.Err? ==> Environmental(r.error) || (r.error == InvalidInput(PasswordTooShort) && |password| < MIN_PASSWORD_LEN))
  {
    var r := Create(lib, password, salt, d);
    if r.Ok? {
      NothingCarried(lib, r.value.index, [], r.value.index);
    }
  }

  /**
   * A change of password goes through only for a password that derives the vault's own encryption key and a new one
   * that is long enough; any other outcome leaves header, keys, counters and entries as they were.
   */
  lemma ChangePasswordGuarded(lib: Library, s: VaultState, current: Bytes, newPassword: Bytes, d: RekeyDraws)
    ensures var (t, r) := ChangePassword(lib, s, current, newPassword, d); var keys := DeriveKeys(lib, current, s.header);
      && (r.Ok? ==> |newPassword| >= MIN_PASSWORD_LEN && keys.Ok? && keys.value.0 == s.index.encKey)
      && (r.Err? ==> t == s)
      && (|newPassword| < MIN_PASSWORD_LEN ==> r == Err(InvalidInput(PasswordTooShort)))
      && (|newPassword| >= MIN_PASSWORD_LEN && keys.Ok? && keys.value.0 != s.index.encKey ==> r == Err(InvalidPassword))
  {
  }

  lemma {:induction false} ReencryptError(lib: Library, from: IndexState, order: seq<Bytes>, d: RekeyDraws, i: nat, acc: VaultState)
    ensures ReencryptFrom(lib, from, order, d, i, acc) != Err(InvalidPassword)
    decreases |order| - i
  {
    hide OpenBlob, SealEntry;
    if i < |order| && DecryptEntry(lib, from, order[i]).Ok? {
      var (name, data) := DecryptEntry(lib, from, order[i]).value;
      SealError(lib, acc.index.encKey, KeyText(lib, acc.index, name), acc.index.dataNonceCounter, name, data, d.At(i));
      var (next, r) := Store(lib, acc, name, data, d.At(i));
      if r.Ok? {
        ReencryptError(lib, from, order, d, i + 1, next);
      }
    } else if i < |order| {
      DecryptError(lib, from, order[i]);
    }
  }

  lemma SealError(lib: Library, encKey: Key, key: Bytes, counter: u64, name: Bytes, data: Bytes, d: StoreDraws)
    ensures SealEntry(lib, encKey, key, counter, name, data, d) != Err(InvalidPassword)
  {
  }

  lemma DecryptError(lib: Library, s: IndexState, key: Bytes)
    ensures DecryptEntry(lib, s, key) != Err(InvalidPassword)
  {
  }

  /**
   * `open` reports a wrong password exactly when the envelope is well formed, the keys derive and the sealed index
   * does not authenticate; a malformed envelope is corrupted data whatever the password.
   */
  lemma InvalidPasswordExact(lib: Library, password: Bytes, data: Bytes, d: OpenDraws)
    ensures var e := ParseEnvelope(lib, data); var r := Open(lib, password, data, d);
      && (e.Err? ==> r == Err(CorruptedData))
      && (r == Err(InvalidPassword) <==>
            && e.Ok? && DeriveKeys(lib, password, e.value.header).Ok?
            && lib.Open(DeriveKeys(lib, password, e.value.header).value.0, e.value.nonce, e.value.encryptedIndex,
                        PrintHeader(e.value.header)).Err?)
  {
    hide ParseEnvelope, ReencryptFrom, NewVault, DeriveKeys, Decode, DecodeLegacy, PrintHeader;
    var e := ParseEnvelope(lib, data);
    EnvelopeErrors(lib, data);
    if e.Ok? {
      DeriveError(lib, password, e.value.header);
      if DeriveKeys(lib, password, e.value.header).Ok? {
        var (enc, hmac) := DeriveKeys(lib, password, e.value.header).value;
        var plain := lib.Open(enc, e.value.nonce, e.value.encryptedIndex, PrintHeader(e.value.header));
        if plain.Ok? {
          DecodeErrors(plain.value, lib.parseIndexV1(plain.value));
          if OpenStored(lib, password, data, d).Ok? {
            RekeyError(lib, OpenStored(lib, password, data, d).value, password, d.rekey);
          }
        }
      }
    }
  }

  lemma DeriveError(lib: Library, password: Bytes, h: VaultHeader)
    ensures DeriveKeys(lib, password, h) != Err(InvalidPassword)
  {
  }

  lemma DecodeErrors(b: Bytes, parsed: Option<LegacyIndex>)
    ensures Decode(b).Err? ==> Decode(b) == Err(CorruptedData)
    ensures DecodeLegacy(parsed).Err? ==> DecodeLegacy(parsed) == Err(CorruptedData)
  {
  }

  lemma RekeyError(lib: Library, s: VaultState, password: Bytes, d: RekeyDraws)
    ensures Rekeyed(lib, s, password, d) != Err(InvalidPassword)
  {
    hide ReencryptFrom, NewVault;
    NewVaultReady(lib, password, d.salt, d.keys);
    if NewVault(lib, password, d.salt, d.keys).Ok? {
      ReencryptError(lib, s.index, d.walk(s.index.files.Keys), d, 0, NewVault(lib, password, d.salt, d.keys).value);
    }
  }
}
