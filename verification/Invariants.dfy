/** What holds of every vault, and the plain map of names to secrets that a vault stands for. */
module Invariants {
  import opened Binary
  import opened Constants
  import opened Externals
  import opened HexKey
  import opened IndexCodec
  import opened Results
  import opened VaultHeaders
  import opened VaultIndexes
  import opened VaultModel

  /** The structure every operation keeps, whatever the entries' contents. */
  ghost predicate Sound(s: VaultState) {
    && s.header.version == VAULT_VERSION && ValidHeader(s.header)
    && SoundIndex(s.index)
  }

  ghost predicate SoundIndex(s: IndexState) {
    WellFormed(s.files) && CounterAhead(s.dataNonceCounter, s.files)
  }

  /** The vault's keys are those of `password` under its header. */
  ghost predicate KeyedBy(lib: Library, s: VaultState, password: Bytes) {
    DeriveKeys(lib, password, s.header) == Ok((s.index.encKey, s.index.hmacKey))
  }

  /** The entry under `key` decrypts, to a name that belongs under `key`. */
  ghost predicate EntryGenuine(lib: Library, s: IndexState, key: Bytes) {
    && DecryptEntry(lib, s, key).Ok?
    && KeyForName(lib, s.hmacKey, DecryptEntry(lib, s, key).value.0) == Ok(key)
  }

  ghost predicate Genuine(lib: Library, s: IndexState) {
    forall key :: key in s.files ==> EntryGenuine(lib, s, key)
  }

  function NameAt(lib: Library, s: IndexState, key: Bytes): Bytes {
    match DecryptEntry(lib, s, key) case Ok((name, _)) => name case Err(_) => []
  }

  function DataAt(lib: Library, s: IndexState, key: Bytes): Bytes {
    match DecryptEntry(lib, s, key) case Ok((_, data)) => data case Err(_) => []
  }

  function KeyText(lib: Library, s: IndexState, name: Bytes): Bytes {
    match KeyForName(lib, s.hmacKey, name) case Ok(key) => key case Err(_) => []
  }

  function Names(lib: Library, s: IndexState): set<Bytes> {
    set key | key in s.files :: NameAt(lib, s, key)
  }

  /** The secrets by name: what decrypting the index gives. */
  function Secrets(lib: Library, s: IndexState): map<Bytes, Bytes> {
    map name | name in Names(lib, s) :: DataAt(lib, s, KeyText(lib, s, name))
  }

  function Lookup(m: map<Bytes, Bytes>, name: Bytes): Option<Bytes> {
    if name in m then Some(m[name]) else None
  }

  /** No other stored name has the HMAC of `name`. */
  ghost predicate NoClash(lib: Library, s: IndexState, name: Bytes) {
    forall other :: other in Secrets(lib, s) && KeyForName(lib, s.hmacKey, other) == KeyForName(lib, s.hmacKey, name) ==> other == name
  }

  // ---------------------------------------------------------------- the map of secrets

  /** A name is present exactly when the entry under its key decrypts to it. */
  lemma SecretsExact(lib: Library, s: IndexState, name: Bytes)
    requires Genuine(lib, s)
    ensures name in Secrets(lib, s) <==>
            KeyForName(lib, s.hmacKey, name).Ok? && KeyText(lib, s, name) in s.files && NameAt(lib, s, KeyText(lib, s, name)) == name
    ensures name in Secrets(lib, s) ==> Secrets(lib, s)[name] == DataAt(lib, s, KeyText(lib, s, name))
  {
  }

  lemma EntrySecret(lib: Library, s: IndexState, key: Bytes)
    requires Genuine(lib, s) && key in s.files
    ensures NameAt(lib, s, key) in Secrets(lib, s)
    ensures Secrets(lib, s)[NameAt(lib, s, key)] == DataAt(lib, s, key)
    ensures KeyForName(lib, s.hmacKey, NameAt(lib, s, key)) == Ok(key)
  {
  }

  /** Decryption looks only at the entry itself and the encryption key. */
  lemma DecryptFrame(lib: Library, s: IndexState, t: IndexState, key: Bytes)
    requires s.encKey == t.encKey && (key in s.files <==> key in t.files)
    requires key in s.files ==> s.files[key] == t.files[key]
    ensures DecryptEntry(lib, s, key) == DecryptEntry(lib, t, key)
  {
  }

  lemma SameSecrets(lib: Library, s: IndexState, t: IndexState)
    requires s.encKey == t.encKey && s.hmacKey == t.hmacKey && s.files == t.files
    ensures Genuine(lib, s) ==> Genuine(lib, t)
    ensures Secrets(lib, s) == Secrets(lib, t)
  {
    hide DecryptEntry, KeyForName;
    forall key ensures DecryptEntry(lib, s, key) == DecryptEntry(lib, t, key) {
      DecryptFrame(lib, s, t, key);
    }
    assert Genuine(lib, s) ==> forall key :: key in s.files ==> EntryGenuine(lib, s, key) && EntryGenuine(lib, t, key);
    assert Names(lib, s) == Names(lib, t);
    assert forall name :: DataAt(lib, s, KeyText(lib, s, name)) == DataAt(lib, t, KeyText(lib, t, name));
  }

  // ---------------------------------------------------------------- sealing one entry

  /** Sealing an admissible entry fails only if a nonce cannot be drawn; the blobs then have lengths the decoders accept. */
  lemma SealedEntry(lib: Library, encKey: Key, key: Bytes, counter: u64, name: Bytes, data: Bytes, d: StoreDraws)
    requires lib.Lawful() && |name| <= MAX_ENTRY_NAME_LEN && |data| <= MAX_ENTRY_DATA_SIZE
    ensures SealEntry(lib, encKey, key, counter, name, data, d).Err? ==>
            SealEntry(lib, encKey, key, counter, name, data, d) == Err(CryptoError(Random))
    ensures SealEntry(lib, encKey, key, counter, name, data, d).Ok? <==> d.dataNonce.Some? && d.nameNonce.Some?
    ensures SealEntry(lib, encKey, key, counter, name, data, d).Ok? ==>
            var e := SealEntry(lib, encKey, key, counter, name, data, d).value;
            && e.dataCounter == counter && SizesInWindow(e)
            && OpenBlob(lib, encKey, e.encryptedName, BuildEntryAad(key, counter)) == Ok(name)
            && OpenBlob(lib, encKey, e.encryptedData, BuildEntryAad(key, counter)) == Ok(data)
  {
  }

  /** A genuine entry's name and data have lengths that fit its blobs exactly, so `store` would accept them. */
  lemma GenuineWithinLimits(lib: Library, s: IndexState, key: Bytes)
    requires lib.Lawful() && key in s.files && SizesInWindow(s.files[key]) && DecryptEntry(lib, s, key).Ok?
    ensures |NameAt(lib, s, key)| == |s.files[key].encryptedName| - MIN_ENCRYPTED_LEN <= MAX_ENTRY_NAME_LEN
    ensures |DataAt(lib, s, key)| == |s.files[key].encryptedData| - MIN_ENCRYPTED_LEN <= MAX_ENTRY_DATA_SIZE
    ensures lib.utf8(NameAt(lib, s, key))
  {
  }

  /** The lengths `store` can give its blobs are exactly those the decoders accept. */
  lemma WindowsExact(lib: Library, encKey: Key, key: Bytes, counter: u64, d: StoreDraws, nameLen: nat, dataLen: nat)
    requires lib.Lawful() && d.dataNonce.Some? && d.nameNonce.Some?
    ensures (MIN_ENCRYPTED_LEN <= nameLen <= MAX_ENCRYPTED_NAME_LEN && MIN_ENCRYPTED_LEN <= dataLen <= MAX_ENCRYPTED_DATA_LEN)
      <==> exists name: Bytes, data: Bytes :: StoredLengths(lib, encKey, key, counter, d, name, data, nameLen, dataLen)
  {
    hide SealEntry;
    if MIN_ENCRYPTED_LEN <= nameLen <= MAX_ENCRYPTED_NAME_LEN && MIN_ENCRYPTED_LEN <= dataLen <= MAX_ENCRYPTED_DATA_LEN {
      var name, data := Zeros(nameLen - MIN_ENCRYPTED_LEN), Zeros(dataLen - MIN_ENCRYPTED_LEN);
      SealedLengths(lib, encKey, key, counter, name, data, d);
      assert StoredLengths(lib, encKey, key, counter, d, name, data, nameLen, dataLen);
    }
    if name: Bytes, data: Bytes :| StoredLengths(lib, encKey, key, counter, d, name, data, nameLen, dataLen) {
      SealedLengths(lib, encKey, key, counter, name, data, d);
    }
  }

  ghost predicate StoredLengths(lib: Library, encKey: Key, key: Bytes, counter: u64, d: StoreDraws,
                                name: Bytes, data: Bytes, nameLen: nat, dataLen: nat) {
    && |name| <= MAX_ENTRY_NAME_LEN && |data| <= MAX_ENTRY_DATA_SIZE
    && var e := SealEntry(lib, encKey, key, counter, name, data, d);
       e.Ok? && |e.value.encryptedName| == nameLen && |e.value.encryptedData| == dataLen
  }

  lemma SealedLengths(lib: Library, encKey: Key, key: Bytes, counter: u64, name: Bytes, data: Bytes, d: StoreDraws)
    requires lib.Lawful() && |name| <= MAX_ENTRY_NAME_LEN && |data| <= MAX_ENTRY_DATA_SIZE
    requires d.dataNonce.Some? && d.nameNonce.Some?
    ensures var e := SealEntry(lib, encKey, key, counter, name, data, d);
      && e.Ok? && |e.value.encryptedName| == MIN_ENCRYPTED_LEN + |name| && |e.value.encryptedData| == MIN_ENCRYPTED_LEN + |data|
  {
  }

  // ---------------------------------------------------------------- store

  /** When `store` succeeds: every limit is met, a key, a counter and two nonces are available, and there is room. */
  ghost predicate CanStore(lib: Library, s: VaultState, name: Bytes, data: Bytes, d: StoreDraws) {
    && |name| <= MAX_ENTRY_NAME_LEN && |data| <= MAX_ENTRY_DATA_SIZE
    && KeyForName(lib, s.index.hmacKey, name).Ok?
    && s.index.dataNonceCounter < U64_MAX
    && d.dataNonce.Some? && d.nameNonce.Some?
    && (KeyText(lib, s.index, name) in s.index.files || |s.index.files| < MAX_INDEX_ENTRIES)
  }

  /** What `store` does to the stored state, success or not. */
  lemma StoreEffect(lib: Library, s: VaultState, name: Bytes, data: Bytes, d: StoreDraws)
    requires lib.Lawful()
    ensures var (t, r) := Store(lib, s, name, data, d);
      && (r.Ok? <==> CanStore(lib, s, name, data, d))
      && t.header == s.header && t.index == s.index.(dataNonceCounter := t.index.dataNonceCounter, files := t.index.files)
      && s.index.dataNonceCounter <= t.index.dataNonceCounter <= s.index.dataNonceCounter + 1
      && (r.Err? ==> t.index.files == s.index.files)
      && (r.Ok? ==>
           var key := KeyText(lib, s.index, name);
           && t.index.dataNonceCounter == s.index.dataNonceCounter + 1
           && key in t.index.files && t.index.files == s.index.files[key := t.index.files[key]]
           && t.index.files[key].dataCounter == s.index.dataNonceCounter
           && SizesInWindow(t.index.files[key])
           && (lib.utf8(name) ==> DecryptEntry(lib, t.index, key) == Ok((name, data))))
  {
    hide OpenBlob, BuildEntryAad, SealEntry, SizesInWindow, KeyForName;
    if |name| <= MAX_ENTRY_NAME_LEN && |data| <= MAX_ENTRY_DATA_SIZE && KeyForName(lib, s.index.hmacKey, name).Ok? {
      SealedEntry(lib, s.index.encKey, KeyText(lib, s.index, name), s.index.dataNonceCounter, name, data, d);
    }
  }

  /** `store` keeps the structure, for any arguments and any failure. */
  lemma StoreSound(lib: Library, s: VaultState, name: Bytes, data: Bytes, d: StoreDraws)
    requires lib.Lawful() && SoundIndex(s.index)
    ensures SoundIndex(Store(lib, s, name, data, d).0.index)
  {
    hide DecryptEntry, SizesInWindow, Store, CanStore;
    StoreEffect(lib, s, name, data, d);
    var (t, r) := Store(lib, s, name, data, d);
    if r.Ok? {
      var key := KeyText(lib, s.index, name);
      StoredKey(lib, s, name, data, d);
      KeyParses(lib, s.index.hmacKey, name);
      StoreRoom(lib, s, name, data, d);
      assert t.index.files.Keys == s.index.files.Keys + {key};
    }
  }

  lemma StoreRoom(lib: Library, s: VaultState, name: Bytes, data: Bytes, d: StoreDraws)
    requires lib.Lawful() && |s.index.files| <= MAX_INDEX_ENTRIES
    ensures |Store(lib, s, name, data, d).0.index.files| <= MAX_INDEX_ENTRIES
    ensures |Store(lib, s, name, data, d).0.index.files| <= |s.index.files| + 1
  {
    hide SealEntry, KeyForName;
  }

  lemma KeyParses(lib: Library, hmacKey: Key, name: Bytes)
    requires KeyForName(lib, hmacKey, name).Ok?
    ensures ParseKey(KeyForName(lib, hmacKey, name).value).Some?
  {
    var tag := lib.hmac(hmacKey, name).value;
    KeyTextExact(Hex(tag), tag);
  }

  /** `store` keeps every entry genuine. */
  lemma StoreGenuine(lib: Library, s: VaultState, name: Bytes, data: Bytes, d: StoreDraws)
    requires lib.Lawful() && Genuine(lib, s.index) && lib.utf8(name)
    ensures Genuine(lib, Store(lib, s, name, data, d).0.index)
  {
    hide DecryptEntry, SizesInWindow, Store, CanStore, KeyForName;
    StoreEffect(lib, s, name, data, d);
    var (t, r) := Store(lib, s, name, data, d);
    forall key | key in t.index.files ensures EntryGenuine(lib, t.index, key) {
      if r.Ok? && key == KeyText(lib, s.index, name) {
        StoredKey(lib, s, name, data, d);
      } else {
        assert EntryGenuine(lib, s.index, key);
        DecryptFrame(lib, s.index, t.index, key);
      }
    }
  }

  lemma StoredKey(lib: Library, s: VaultState, name: Bytes, data: Bytes, d: StoreDraws)
    requires Store(lib, s, name, data, d).1.Ok?
    ensures KeyForName(lib, s.index.hmacKey, name) == Ok(KeyText(lib, s.index, name))
  {
  }

  /**
   * A successful `store` is the map update exactly when no other stored name shares the HMAC;
   * a failed one changes neither the secrets nor any ciphertext.
   */
  lemma StoreMeaning(lib: Library, s: VaultState, name: Bytes, data: Bytes, d: StoreDraws)
    requires lib.Lawful() && Genuine(lib, s.index) && lib.utf8(name)
    ensures var (t, r) := Store(lib, s, name, data, d);
      && (r.Ok? ==> (Secrets(lib, t.index) == Secrets(lib, s.index)[name := data] <==> NoClash(lib, s.index, name)))
      && (r.Err? ==> Secrets(lib, t.index) == Secrets(lib, s.index) && t.index.files == s.index.files)
  {
    hide DecryptEntry, SizesInWindow, Store, CanStore, KeyForName, Secrets;
    StoreEffect(lib, s, name, data, d);
    StoreGenuine(lib, s, name, data, d);
    var (t, r) := Store(lib, s, name, data, d);
    if r.Err? {
      SameSecrets(lib, s.index, t.index);
    } else {
      StoredKey(lib, s, name, data, d);
      forall other ensures StoredSecret(lib, s.index, t.index, name, data, other) {
        StoredAt(lib, s.index, t.index, name, data, other);
      }
      assert StoredSecret(lib, s.index, t.index, name, data, name);
      if NoClash(lib, s.index, name) {
        forall other | KeyForName(lib, s.index.hmacKey, other) == KeyForName(lib, s.index.hmacKey, name) && other in Secrets(lib, s.index)
          ensures other == name {
        }
        forall other ensures other in Secrets(lib, t.index) <==> other in Secrets(lib, s.index)[name := data] {
          assert StoredSecret(lib, s.index, t.index, name, data, other);
        }
        forall other | other in Secrets(lib, t.index)
          ensures Secrets(lib, t.index)[other] == Secrets(lib, s.index)[name := data][other] {
          assert StoredSecret(lib, s.index, t.index, name, data, other);
        }
      } else {
        var other :| other in Secrets(lib, s.index) && other != name
                     && KeyForName(lib, s.index.hmacKey, other) == KeyForName(lib, s.index.hmacKey, name);
        assert StoredSecret(lib, s.index, t.index, name, data, other);
        assert other !in Secrets(lib, t.index) && other in Secrets(lib, s.index)[name := data];
      }
    }
  }

  /** What a store under `name` makes of the secret called `other`. */
  ghost predicate StoredSecret(lib: Library, s: IndexState, t: IndexState, name: Bytes, data: Bytes, other: Bytes) {
    if other == name then Lookup(Secrets(lib, t), other) == Some(data)
    else if KeyForName(lib, s.hmacKey, other) == KeyForName(lib, s.hmacKey, name) then other !in Secrets(lib, t)
    else Lookup(Secrets(lib, t), other) == Lookup(Secrets(lib, s), other)
  }

  lemma StoredAt(lib: Library, s: IndexState, t: IndexState, name: Bytes, data: Bytes, other: Bytes)
    requires Genuine(lib, s) && Genuine(lib, t) && s.encKey == t.encKey && s.hmacKey == t.hmacKey
    requires KeyForName(lib, s.hmacKey, name) == Ok(KeyText(lib, s, name))
    requires var key := KeyText(lib, s, name);
      key in t.files && t.files == s.files[key := t.files[key]] && DecryptEntry(lib, t, key) == Ok((name, data))
    ensures StoredSecret(lib, s, t, name, data, other)
  {
    hide DecryptEntry, KeyForName, Secrets;
    SecretsExact(lib, s, other);
    SecretsExact(lib, t, other);
    var key := KeyText(lib, s, other);
    if key in s.files && key in t.files && s.files[key] == t.files[key] {
      DecryptFrame(lib, s, t, key);
    }
  }
}
