/**
 * What each vault operation computes, as a function of the vault's contents, its arguments and
 * what the random source, locked memory and the hash map's iteration yield.
 */
module VaultModel {
  import opened Binary
  import opened Constants
  import opened Enumerations
  import opened Envelopes
  import opened Externals
  import opened IndexCodec
  import opened LegacyIndexes
  import opened Results
  import opened VaultHeaders
  import opened VaultIndexes

  datatype VaultState = VaultState(header: VaultHeader, index: IndexState)

  /** How a hash map is walked: some order of its keys. */
  type Walk = set<Bytes> -> seq<Bytes>

  ghost predicate IsWalk(walk: Walk) {
    forall s: set<Bytes> :: Enumerates(walk(s), s)
  }

  /** The two nonces a `store` draws; `None` is a failure of the random source. */
  datatype StoreDraws = StoreDraws(dataNonce: Option<Nonce>, nameNonce: Option<Nonce>)

  /** Draws of one re-keying; past the end of `stores` the random source has failed. */
  datatype RekeyDraws = RekeyDraws(salt: Option<Salt>, keys: KeyDraws, walk: Walk, stores: seq<StoreDraws>) {
    function At(i: nat): StoreDraws {
      if i < |stores| then stores[i] else StoreDraws(None, None)
    }
  }

  datatype OpenDraws = OpenDraws(lockEnc: bool, lockHmac: bool, rekey: RekeyDraws)

  // ---------------------------------------------------------------- keys and entries

  function DeriveMasterKey(lib: Library, password: Bytes, h: VaultHeader): Result<Key> {
    var variant := if h.version == LEGACY_VAULT_VERSION_1 then Argon2i else Argon2id;
    lib.kdf(variant, password, h.kdfSalt, h.kdfIterations, h.kdfMemoryCost).OkOr(CryptoError(Kdf))
  }

  /** Both subkeys of a password under a header. */
  function DeriveKeys(lib: Library, password: Bytes, h: VaultHeader): Result<(Key, Key)> {
    var master :- DeriveMasterKey(lib, password, h);
    DeriveSubkeys(lib, master, h.kdfSalt)
  }

  function BuildEntryAad(key: Bytes, counter: u64): Bytes {
    key + Le(counter, 8)
  }

  function SplitNonce(blob: Bytes): Result<(Nonce, Bytes)> {
    if |blob| < NONCE_LEN then Err(CorruptedData) else Ok((blob[..NONCE_LEN], blob[NONCE_LEN..]))
  }

  /** Opens a stored blob: nonce prefix, then ciphertext. */
  function OpenBlob(lib: Library, encKey: Key, blob: Bytes, aad: Bytes): Result<Bytes> {
    var (nonce, ciphertext) :- SplitNonce(blob);
    lib.Open(encKey, nonce, ciphertext, aad)
  }

  /** The new entry of a `store`, once its key and counter are known. */
  function SealEntry(lib: Library, encKey: Key, key: Bytes, counter: u64, name: Bytes, data: Bytes, d: StoreDraws): Result<IndexEntry> {
    var dataNonce :- d.dataNonce.OkOr(CryptoError(Random));
    var nameNonce :- d.nameNonce.OkOr(CryptoError(Random));
    var aad := BuildEntryAad(key, counter);
    var sealedData :- lib.Seal(encKey, dataNonce, data, aad);
    var sealedName :- lib.Seal(encKey, nameNonce, name, aad);
    Ok(IndexEntry(counter, nameNonce + sealedName, dataNonce + sealedData))
  }

  // ---------------------------------------------------------------- operations

  function Create(lib: Library, password: Bytes, salt: Option<Salt>, d: KeyDraws): Result<VaultState> {
    var _ :- Guard(|password| >= MIN_PASSWORD_LEN, InvalidInput(PasswordTooShort));
    NewVault(lib, password, salt, d)
  }

  /** An empty vault under a fresh header. */
  function NewVault(lib: Library, password: Bytes, salt: Option<Salt>, d: KeyDraws): Result<VaultState> {
    var drawn :- salt.OkOr(CryptoError(Random));
    var header := DefaultHeader(drawn);
    var master :- DeriveMasterKey(lib, password, header);
    var index :- EmptyIndex(lib, master, header.kdfSalt, d);
    Ok(VaultState(header, index))
  }

  function Store(lib: Library, s: VaultState, name: Bytes, data: Bytes, d: StoreDraws): (VaultState, Result<()>) {
    if |name| > MAX_ENTRY_NAME_LEN then (s, Err(InvalidInput(NameTooLong)))
    else if |data| > MAX_ENTRY_DATA_SIZE then (s, Err(InvalidInput(DataTooLarge)))
    else
      match KeyForName(lib, s.index.hmacKey, name)
      case Err(e) => (s, Err(e))
      case Ok(key) =>
        var (counted, counter) := AfterNextDataCounter(s.index);
        if counter.Err? then (s.(index := counted), Err(counter.error))
        else
          match SealEntry(lib, s.index.encKey, key, counter.value, name, data, d)
          case Err(e) => (s.(index := counted), Err(e))
          case Ok(entry) =>
            var (inserted, r) := AfterInsert(counted, key, entry);
            (s.(index := inserted), r)
  }

  /** `retrieve`: `decrypt_secret`. */
  function Retrieve(lib: Library, s: VaultState, name: Bytes): Result<Option<Bytes>> {
    var key :- KeyForName(lib, s.index.hmacKey, name);
    if key !in s.index.files then Ok(None)
    else
      var entry := s.index.files[key];
      var data :- OpenBlob(lib, s.index.encKey, entry.encryptedData, BuildEntryAad(key, entry.dataCounter));
      Ok(Some(data))
  }

  function Remove(lib: Library, s: VaultState, name: Bytes): (VaultState, Result<bool>) {
    match KeyForName(lib, s.index.hmacKey, name)
    case Err(e) => (s, Err(e))
    case Ok(key) =>
      var (removed, entry) := AfterRemove(s.index, key);
      (s.(index := removed), Ok(entry.Some?))
  }

  function Contents(s: IndexState): IndexData {
    IndexData(s.nonceCounter, s.dataNonceCounter, s.files)
  }

  /** The bytes of a vault file, from the current nonce and counters. */
  function Serialize(lib: Library, s: VaultState, walk: Walk): Result<Bytes> {
    var plain :- Encode(Contents(s.index), walk(s.index.files.Keys));
    var sealed :- lib.Seal(s.index.encKey, s.index.nonce, plain, PrintHeader(s.header));
    var output := Frame(s.header, s.index.nonce, sealed);
    if |output| > MAX_VAULT_FILE_SIZE then Err(SerializationError) else Ok(output)
  }

  function Export(lib: Library, s: VaultState, draw: Option<Nonce>, walk: Walk): (VaultState, Result<Bytes>) {
    var (advanced, r) := AfterAdvanceNonce(s.index, draw);
    var s1 := s.(index := advanced);
    if r.Err? then (s1, Err(r.error)) else (s1, Serialize(lib, s1, walk))
  }

  function VerifyPassword(lib: Library, s: VaultState, password: Bytes): Result<()> {
    var (enc, _) :- DeriveKeys(lib, password, s.header);
    Guard(enc == s.index.encKey, InvalidPassword)
  }

  /** Name and plaintext of the entry under `key`. */
  function DecryptEntry(lib: Library, s: IndexState, key: Bytes): Result<(Bytes, Bytes)> {
    if key !in s.files then Err(CorruptedData)
    else
      var entry := s.files[key];
      var aad := BuildEntryAad(key, entry.dataCounter);
      var name :- OpenBlob(lib, s.encKey, entry.encryptedName, aad);
      var _ :- Guard(lib.utf8(name), CorruptedData);
      var data :- OpenBlob(lib, s.encKey, entry.encryptedData, aad);
      Ok((name, data))
  }

  /** Stores the entries `order[i..]` of `from` into `acc`, one at a time. */
  function ReencryptFrom(lib: Library, from: IndexState, order: seq<Bytes>, d: RekeyDraws, i: nat, acc: VaultState): Result<VaultState>
    decreases |order| - i
  {
    if i >= |order| then Ok(acc)
    else
      var (name, data) :- DecryptEntry(lib, from, order[i]);
      var (next, r) := Store(lib, acc, name, data, d.At(i));
      if r.Err? then Err(r.error) else ReencryptFrom(lib, from, order, d, i + 1, next)
  }

  /** The vault `rekey` swaps in. */
  function Rekeyed(lib: Library, s: VaultState, password: Bytes, d: RekeyDraws): Result<VaultState> {
    var empty :- NewVault(lib, password, d.salt, d.keys);
    ReencryptFrom(lib, s.index, d.walk(s.index.files.Keys), d, 0, empty)
  }

  function Rekey(lib: Library, s: VaultState, password: Bytes, d: RekeyDraws): (VaultState, Result<()>) {
    match Rekeyed(lib, s, password, d)
    case Err(e) => (s, Err(e))
    case Ok(t) => (t, Ok(()))
  }

  function ChangePassword(lib: Library, s: VaultState, current: Bytes, newPassword: Bytes, d: RekeyDraws): (VaultState, Result<()>) {
    if |newPassword| < MIN_PASSWORD_LEN then (s, Err(InvalidInput(PasswordTooShort)))
    else
      match VerifyPassword(lib, s, current)
      case Err(e) => (s, Err(e))
      case Ok(_) => Rekey(lib, s, newPassword, d)
  }

  /** `open` up to the point where a version 1 vault is re-keyed. */
  function OpenStored(lib: Library, password: Bytes, data: Bytes, d: OpenDraws): Result<VaultState> {
    var e :- ParseEnvelope(lib, data);
    var (enc, hmac) :- DeriveKeys(lib, password, e.header);
    var plain := lib.Open(enc, e.nonce, e.encryptedIndex, PrintHeader(e.header));
    if plain.Err? then Err(InvalidPassword)
    else
      var contents :-
        if e.header.version == LEGACY_VAULT_VERSION_1 then DecodeLegacy(lib.parseIndexV1(plain.value)) else Decode(plain.value);
      var index :- RestoredIndex(enc, hmac, e.nonce, contents, d.lockEnc, d.lockHmac);
      Ok(VaultState(e.header, index))
  }

  function Open(lib: Library, password: Bytes, data: Bytes, d: OpenDraws): Result<VaultState> {
    var stored :- OpenStored(lib, password, data, d);
    if stored.header.version == LEGACY_VAULT_VERSION_1 then Rekeyed(lib, stored, password, d.rekey) else Ok(stored)
  }
}
