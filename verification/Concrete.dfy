/**
 * What each operation does, said with the library's own functions, the drawn values and plain numbers: no notion of the
 * specification stands between the two sides.
 */
module Concrete {
  import opened Binary
  import opened Constants
  import opened Enumerations
  import opened Envelopes
  import opened Externals
  import opened HexKey
  import opened IndexCodec
  import opened Invariants
  import opened Layouts
  import opened LegacyIndexes
  import opened Passwords
  import opened Rekeying
  import opened Results
  import opened RoundTrip
  import opened VaultHeaders
  import opened VaultIndexes
  import opened VaultModel

  // ---------------------------------------------------------------- keys

  /** Master key of a password: Argon2i for version 1 and Argon2id for every other, with the header's salt, passes and memory. */
  function Master(lib: Library, password: Bytes, h: VaultHeader): Option<Key> {
    lib.kdf(if h.version == 1 then Argon2i else Argon2id, password, h.kdfSalt, h.kdfIterations, h.kdfMemoryCost)
  }

  /** The two keys are the expansions of the password's master key under the header. */
  predicate PasswordKeys(lib: Library, password: Bytes, h: VaultHeader, enc: Key, hmac: Key) {
    var master := Master(lib, password, h);
    && master.Some?
    && lib.hkdf(h.kdfSalt, master.value, EncryptionSubkey) == Some(enc)
    && lib.hkdf(h.kdfSalt, master.value, HmacSubkey) == Some(hmac)
  }

  /** Why a password yields no keys. */
  function KeyFailure(lib: Library, password: Bytes, h: VaultHeader): VaultError {
    CryptoError(if Master(lib, password, h).None? then Kdf else Hkdf)
  }

  lemma KeysExact(lib: Library, password: Bytes, h: VaultHeader, enc: Key, hmac: Key)
    ensures DeriveKeys(lib, password, h) == Ok((enc, hmac)) <==> PasswordKeys(lib, password, h, enc, hmac)
    ensures DeriveKeys(lib, password, h).Err? ==> DeriveKeys(lib, password, h) == Err(KeyFailure(lib, password, h))
  {
  }

  /** The keys of every vault that is created, opened or re-keyed are those of its password under its header. */
  lemma VaultKeys(lib: Library, password: Bytes, salt: Option<Salt>, k: KeyDraws, data: Bytes, o: OpenDraws, s: VaultState, r: RekeyDraws)
    requires lib.Lawful()
    ensures KeysOf(lib, password, Create(lib, password, salt, k))
    ensures KeysOf(lib, password, Open(lib, password, data, o))
    ensures KeysOf(lib, password, Rekeyed(lib, s, password, r))
  {
    hide Create, Open, Rekeyed, DeriveKeys, PasswordKeys, Sound, Genuine, Secrets;
    if Create(lib, password, salt, k).Ok? {
      CreateExact(lib, password, salt, k);
      Keyed(lib, Create(lib, password, salt, k).value, password);
    }
    if Open(lib, password, data, o).Ok? {
      OpenSound(lib, password, data, o);
      Keyed(lib, Open(lib, password, data, o).value, password);
    }
    if Rekeyed(lib, s, password, r).Ok? {
      RekeyedSound(lib, s, password, r);
      Keyed(lib, Rekeyed(lib, s, password, r).value, password);
    }
  }

  predicate KeysOf(lib: Library, password: Bytes, t: Result<VaultState>) {
    t.Ok? ==> PasswordKeys(lib, password, t.value.header, t.value.index.encKey, t.value.index.hmacKey)
  }

  lemma Keyed(lib: Library, s: VaultState, password: Bytes)
    ensures KeyedBy(lib, s, password) <==> PasswordKeys(lib, password, s.header, s.index.encKey, s.index.hmacKey)
  {
    hide DeriveKeys, PasswordKeys;
    KeysExact(lib, password, s.header, s.index.encKey, s.index.hmacKey);
  }

  /** What `create` and every re-keying set up: version 2, 4 passes, 131072 KiB, 32-byte keys, counters at zero, no entries. */
  predicate SetUp(lib: Library, password: Bytes, salt: Salt, k: KeyDraws, t: VaultState) {
    && t.header == VaultHeader(2, salt, 4, 131072, 32)
    && k.nonce == Some(t.index.nonce) && k.lockEnc && k.lockHmac
    && t.index.nonceCounter == 0 && t.index.dataNonceCounter == 0 && t.index.files == map[]
    && PasswordKeys(lib, password, t.header, t.index.encKey, t.index.hmacKey)
  }

  /** Why no vault can be set up, in the order of the steps. */
  function SetUpFailure(lib: Library, password: Bytes, salt: Option<Salt>, k: KeyDraws): VaultError {
    if salt.None? then CryptoError(Random)
    else
      var h := VaultHeader(2, salt.value, 4, 131072, 32);
      var master := Master(lib, password, h);
      if master.None? then CryptoError(Kdf)
      else if lib.hkdf(h.kdfSalt, master.value, EncryptionSubkey).None? || lib.hkdf(h.kdfSalt, master.value, HmacSubkey).None? then
        CryptoError(Hkdf)
      else if k.nonce.None? then CryptoError(Random)
      else CryptoError(LockedMemory)
  }

  lemma NewVaultExact(lib: Library, password: Bytes, salt: Option<Salt>, k: KeyDraws, t: VaultState)
    ensures NewVault(lib, password, salt, k) == Ok(t) <==> salt.Some? && SetUp(lib, password, salt.value, k, t)
  {
  }

  lemma NewVaultRefused(lib: Library, password: Bytes, salt: Option<Salt>, k: KeyDraws)
    ensures NewVault(lib, password, salt, k).Err? ==> NewVault(lib, password, salt, k) == Err(SetUpFailure(lib, password, salt, k))
  {
  }

  /** `create` gives exactly the vault set up under a password of at least 8 bytes. */
  lemma CreateConcrete(lib: Library, password: Bytes, salt: Option<Salt>, k: KeyDraws, t: VaultState)
    ensures Create(lib, password, salt, k) == Ok(t) <==> |password| >= 8 && salt.Some? && SetUp(lib, password, salt.value, k, t)
  {
    hide NewVault, SetUp;
    NewVaultExact(lib, password, salt, k, t);
  }

  /** A password under 8 bytes is refused before anything else, whatever the rest; otherwise the first failing step is reported. */
  lemma CreateRefused(lib: Library, password: Bytes, salt: Option<Salt>, k: KeyDraws)
    ensures var r := Create(lib, password, salt, k);
      && (|password| < 8 <==> r == Err(InvalidInput(PasswordTooShort)))
      && (|password| >= 8 && r.Err? ==> r == Err(SetUpFailure(lib, password, salt, k)))
  {
    hide NewVault;
    NewVaultRefused(lib, password, salt, k);
  }

  // ---------------------------------------------------------------- store, retrieve, remove

  /** The entry of a store: each blob is its own nonce and what is sealed under it, bound to the key text and the counter. */
  ghost predicate SealedUnder(lib: Library, encKey: Key, key: Bytes, name: Bytes, data: Bytes, d: StoreDraws, e: IndexEntry) {
    var aad := key + Le(e.dataCounter, 8);
    && |e.encryptedName| >= 24 && |e.encryptedData| >= 24
    && d.nameNonce == Some(e.encryptedName[..24]) && d.dataNonce == Some(e.encryptedData[..24])
    && lib.seal(encKey, e.encryptedName[..24], name, aad) == Some(e.encryptedName[24..])
    && lib.seal(encKey, e.encryptedData[..24], data, aad) == Some(e.encryptedData[24..])
  }

  /** Why a store fails, in the order of its checks. */
  function StoreFailureOf(lib: Library, s: IndexState, name: Bytes, data: Bytes, d: StoreDraws): VaultError {
    if |name| > 255 then InvalidInput(NameTooLong)
    else if |data| > 67108864 then InvalidInput(DataTooLarge)
    else if lib.hmac(s.hmacKey, name).None? then CryptoError(Hmac)
    else if s.dataNonceCounter == U64_MAX then CryptoError(CounterOverflow)
    else if d.dataNonce.None? || d.nameNonce.None? then CryptoError(Random)
    else InvalidInput(IndexFull)
  }

  /**
   * A store that succeeds puts one entry at the hex text of the name's HMAC and moves the counter on; one that fails leaves
   * every entry, and the counter too unless it had got past it.
   */
  lemma StoreConcrete(lib: Library, s: VaultState, name: Bytes, data: Bytes, d: StoreDraws)
    requires lib.Lawful()
    ensures var (t, r) := Store(lib, s, name, data, d); var tag := lib.hmac(s.index.hmacKey, name); var c := s.index.dataNonceCounter;
      && (r.Ok? <==>
           && |name| <= 255 && |data| <= 67108864 && tag.Some? && c < U64_MAX && d.dataNonce.Some? && d.nameNonce.Some?
           && (Hex(tag.value) in s.index.files || |s.index.files| < 1024))
      && (r.Ok? ==>
           var key := Hex(tag.value);
           && key in t.index.files && t.index.files[key].dataCounter == c
           && SealedUnder(lib, s.index.encKey, key, name, data, d, t.index.files[key])
           && t == s.(index := s.index.(dataNonceCounter := c + 1, files := s.index.files[key := t.index.files[key]])))
      && (r.Err? ==>
           && r.error == StoreFailureOf(lib, s.index, name, data, d)
           && t == if |name| <= 255 && |data| <= 67108864 && tag.Some? && c < U64_MAX
                   then s.(index := s.index.(dataNonceCounter := c + 1)) else s)
  {
    hide Hex, Le;
    if |name| <= 255 && |data| <= 67108864 && lib.hmac(s.index.hmacKey, name).Some? && d.dataNonce.Some? && d.nameNonce.Some? {
      SealConcrete(lib, s.index.encKey, Hex(lib.hmac(s.index.hmacKey, name).value), s.index.dataNonceCounter, name, data, d);
    }
  }

  lemma SealConcrete(lib: Library, encKey: Key, key: Bytes, counter: u64, name: Bytes, data: Bytes, d: StoreDraws)
    requires lib.Lawful() && |name| <= 255 && |data| <= 67108864 && d.dataNonce.Some? && d.nameNonce.Some?
    ensures var e := SealEntry(lib, encKey, key, counter, name, data, d);
      e.Ok? && e.value.dataCounter == counter && SealedUnder(lib, encKey, key, name, data, d, e.value)
  {
    hide Le;
    var aad := key + Le(counter, 8);
    assert lib.Seal(encKey, d.dataNonce.value, data, aad).Ok? && lib.Seal(encKey, d.nameNonce.value, name, aad).Ok?;
  }

  /** The blob's first 24 bytes are its nonce; what follows must be a tag long at least and open under the key text and counter. */
  function Opened(lib: Library, encKey: Key, key: Bytes, counter: u64, blob: Bytes): Option<Bytes> {
    if |blob| < 40 then None else lib.open(encKey, blob[..24], blob[24..], key + Le(counter, 8))
  }

  /** A retrieve looks under the hex text of the name's HMAC and opens the data blob it finds there. */
  lemma RetrieveConcrete(lib: Library, s: VaultState, name: Bytes)
    ensures var r := Retrieve(lib, s, name); var tag := lib.hmac(s.index.hmacKey, name);
      && (tag.None? <==> r == Err(CryptoError(Hmac)))
      && (tag.Some? ==>
           var key := Hex(tag.value);
           && (r == Ok(None) <==> key !in s.index.files)
           && (key in s.index.files ==>
                var e := s.index.files[key];
                r == match Opened(lib, s.index.encKey, key, e.dataCounter, e.encryptedData)
                     case Some(secret) => Ok(Some(secret))
                     case None => Err(if |e.encryptedData| < 24 then CorruptedData else CryptoError(Aead))))
  {
    hide Hex, Le;
  }

  /** A remove takes away the entry at the hex text of the name's HMAC and nothing else. */
  lemma RemoveConcrete(lib: Library, s: VaultState, name: Bytes)
    ensures var (t, r) := Remove(lib, s, name); var tag := lib.hmac(s.index.hmacKey, name);
      && (tag.None? ==> t == s && r == Err(CryptoError(Hmac)))
      && (tag.Some? ==>
           var key := Hex(tag.value);
           && r == Ok(key in s.index.files)
           && key !in t.index.files && (forall k :: k != key ==> (k in t.index.files <==> k in s.index.files))
           && (forall k :: k in t.index.files ==> k in s.index.files && t.index.files[k] == s.index.files[k])
           && t == s.(index := s.index.(files := t.index.files)))
  {
    hide Hex;
  }

  /** Name and data of an entry: both blobs open, and the name is text. */
  lemma DecryptConcrete(lib: Library, s: IndexState, key: Bytes, name: Bytes, data: Bytes)
    ensures DecryptEntry(lib, s, key) == Ok((name, data)) <==>
      && key in s.files
      && var e := s.files[key];
         && Opened(lib, s.encKey, key, e.dataCounter, e.encryptedName) == Some(name) && lib.utf8(name)
         && Opened(lib, s.encKey, key, e.dataCounter, e.encryptedData) == Some(data)
  {
    hide Le;
  }

  // ---------------------------------------------------------------- export

  /** A file: header length, header, nonce and sealed index, and between the last two the 8 bytes that version 1 skips. */
  ghost predicate FileOf(data: Bytes, h: VaultHeader, nonce: Nonce, skipped: Bytes, sealed: Bytes) {
    && data == Le(|PrintHeader(h)|, 4) + PrintHeader(h) + nonce + skipped + sealed
    && |data| <= 268435456
    && |skipped| == (if h.version == 1 then 8 else 0)
  }

  /** Versions 1 and 2, memory from 32768 to 262144 KiB, 3 to 10 passes, 32-byte keys. */
  predicate InRange(h: VaultHeader) {
    h.version in {1, 2} && 32768 <= h.kdfMemoryCost <= 262144 && 3 <= h.kdfIterations <= 10 && h.keyLength == 32
  }

  /** The file seals, under the drawn nonce and with the header as associated data, an index laid out from this very vault. */
  ghost predicate Exports(lib: Library, t: VaultState, file: Bytes) {
    exists plain, sealed, es ::
      && Holding(plain, IndexData(t.index.nonceCounter, t.index.dataNonceCounter, t.index.files), es)
      && lib.seal(t.index.encKey, t.index.nonce, plain, PrintHeader(t.header)) == Some(sealed)
      && file == Le(|PrintHeader(t.header)|, 4) + PrintHeader(t.header) + t.index.nonce + sealed
  }

  /** An export counts first, then takes the drawn nonce; the file is made from the vault after both. */
  lemma ExportConcrete(lib: Library, s: VaultState, draw: Option<Nonce>, walk: Walk)
    requires lib.Lawful() && IsWalk(walk) && WellFormed(s.index.files)
    ensures var (t, r) := Export(lib, s, draw, walk); var c := s.index.nonceCounter;
      if c == U64_MAX then t == s && r == Err(CryptoError(CounterOverflow))
      else if draw.None? then t == s.(index := s.index.(nonceCounter := c + 1)) && r == Err(CryptoError(Random))
      else
        && t == s.(index := s.index.(nonceCounter := c + 1, nonce := draw.value))
        && (r.Ok? ==> |r.value| <= 268435456 && Exports(lib, t, r.value))
        && (r.Err? ==> r == Err(SerializationError) && exists file :: |file| > 268435456 && Exports(lib, t, file))
  {
    hide Encode, PrintHeader, Le, WellFormed, Holding;
    if s.index.nonceCounter < U64_MAX && draw.Some? {
      var t := Export(lib, s, draw, walk).0;
      var order := walk(t.index.files.Keys);
      EncodeLaidOut(Contents(t.index), order);
      EncodedIndex(Contents(t.index), order);
      TotalFits(t.index.files, order);
      var plain := Encode(Contents(t.index), order).value;
      var sealed := lib.Seal(t.index.encKey, t.index.nonce, plain, PrintHeader(t.header)).value;
      var file := Frame(t.header, t.index.nonce, sealed);
      assert Exports(lib, t, file);
    }
  }

  // ---------------------------------------------------------------- open

  /** Bytes are a file exactly when they frame a header in range, its parts where the layout puts them. */
  lemma EnvelopeConcrete(lib: Library, data: Bytes, h: VaultHeader, nonce: Nonce, sealed: Bytes)
    requires lib.HeaderLaw()
    ensures ParseEnvelope(lib, data) == Ok(Envelope(h, nonce, sealed)) <==>
            InRange(h) && exists skipped :: FileOf(data, h, nonce, skipped, sealed)
    ensures ParseEnvelope(lib, data).Err? ==> ParseEnvelope(lib, data) == Err(CorruptedData)
  {
    hide ParseEnvelope, PrintHeader, Le;
    EnvelopeErrors(lib, data);
    EnvelopeExact(lib, data, Envelope(h, nonce, sealed));
    if skipped :| FileOf(data, h, nonce, skipped, sealed) {
      FrameOf(h, nonce, skipped, sealed);
    }
    if ParseEnvelope(lib, data) == Ok(Envelope(h, nonce, sealed)) {
      var skipped: Bytes :| |skipped| == SkippedLen(h) && data == Frame(h, nonce, skipped + sealed);
      FrameOf(h, nonce, skipped, sealed);
      assert FileOf(data, h, nonce, skipped, sealed);
    }
  }

  lemma FrameOf(h: VaultHeader, nonce: Nonce, skipped: Bytes, sealed: Bytes)
    ensures Frame(h, nonce, skipped + sealed) == Le(|PrintHeader(h)|, 4) + PrintHeader(h) + nonce + skipped + sealed
  {
    hide PrintHeader, Le;
  }

  /** The content of a decrypted index, by the version of its file. */
  ghost predicate Content(lib: Library, version: nat, plain: Bytes, d: IndexData) {
    if version == 1 then Document(lib.parseIndexV1(plain)) && ContentOf(lib.parseIndexV1(plain).value, d)
    else exists es :: Holding(plain, d, es)
  }

  lemma ContentExact(lib: Library, version: nat, plain: Bytes, d: IndexData)
    ensures (if version == 1 then DecodeLegacy(lib.parseIndexV1(plain)) else Decode(plain)) == Ok(d) <==> Content(lib, version, plain, d)
  {
    hide Decode, DecodeLegacy, RealEntry, ContentOf, Holding;
    DecodeLaidOut(plain, d);
    var parsed := lib.parseIndexV1(plain);
    LegacyExact(parsed);
    if DecodeLegacy(parsed).Ok? {
      SameContent(parsed.value, d, DecodeLegacy(parsed).value);
    }
  }

  /** The counter is past every stored one. */
  predicate Ahead(d: IndexData) {
    forall key :: key in d.files ==> d.files[key].dataCounter < d.dataNonceCounter
  }

  /** The sealed index opens under the keys of the password, with the header as associated data, to the content of the vault. */
  ghost predicate Reads(lib: Library, password: Bytes, sealed: Bytes, t: VaultState) {
    && PasswordKeys(lib, password, t.header, t.index.encKey, t.index.hmacKey)
    && |sealed| >= 16
    && var plain := lib.open(t.index.encKey, t.index.nonce, sealed, PrintHeader(t.header));
       var content := IndexData(t.index.nonceCounter, t.index.dataNonceCounter, t.index.files);
       plain.Some? && Content(lib, t.header.version, plain.value, content) && Ahead(content)
  }

  /** A file of this vault: the bytes frame its header and nonce, and what they seal is its content. */
  ghost predicate Stores(lib: Library, password: Bytes, data: Bytes, t: VaultState) {
    InRange(t.header) && exists skipped, sealed :: FileOf(data, t.header, t.index.nonce, skipped, sealed) && Reads(lib, password, sealed, t)
  }

  lemma OpenedContent(lib: Library, password: Bytes, data: Bytes, d: OpenDraws, e: Envelope, t: VaultState)
    requires ParseEnvelope(lib, data) == Ok(e) && t.header == e.header && t.index.nonce == e.nonce
    ensures OpenStored(lib, password, data, d) == Ok(t) <==> d.lockEnc && d.lockHmac && Reads(lib, password, e.encryptedIndex, t)
  {
    hide ParseEnvelope, Decode, DecodeLegacy, PrintHeader, DeriveKeys, PasswordKeys, Content;
    KeysExact(lib, password, e.header, t.index.encKey, t.index.hmacKey);
    if DeriveKeys(lib, password, e.header).Ok? {
      var (enc, hmac) := DeriveKeys(lib, password, e.header).value;
      var plain := lib.Open(enc, e.nonce, e.encryptedIndex, PrintHeader(e.header));
      if plain.Ok? {
        ContentExact(lib, e.header.version, plain.value, Contents(t.index));
      }
    }
  }

  /**
   * `open` reads a file into this vault exactly when it is a file of the vault; of version 2 that is the answer, and of
   * version 1 the answer is the re-keying of the vault under the same password.
   */
  lemma OpenConcrete(lib: Library, password: Bytes, data: Bytes, d: OpenDraws, t: VaultState)
    requires lib.HeaderLaw()
    ensures OpenStored(lib, password, data, d) == Ok(t) <==> d.lockEnc && d.lockHmac && Stores(lib, password, data, t)
    ensures d.lockEnc && d.lockHmac && Stores(lib, password, data, t) ==>
            Open(lib, password, data, d) == if t.header.version == 1 then Rekeyed(lib, t, password, d.rekey) else Ok(t)
    ensures OpenStored(lib, password, data, d).Err? ==> Open(lib, password, data, d) == Err(OpenStored(lib, password, data, d).error)
  {
    hide ParseEnvelope, Rekeyed, FileOf, Reads, InRange, OpenStored;
    if OpenStored(lib, password, data, d) == Ok(t) {
      StoredParts(lib, password, data, d, t);
      var e := ParseEnvelope(lib, data).value;
      OpenedContent(lib, password, data, d, e, t);
      EnvelopeConcrete(lib, data, e.header, e.nonce, e.encryptedIndex);
    }
    if d.lockEnc && d.lockHmac && Stores(lib, password, data, t) {
      var skipped, sealed :| FileOf(data, t.header, t.index.nonce, skipped, sealed) && Reads(lib, password, sealed, t);
      EnvelopeConcrete(lib, data, t.header, t.index.nonce, sealed);
      OpenedContent(lib, password, data, d, Envelope(t.header, t.index.nonce, sealed), t);
    }
  }

  lemma StoredParts(lib: Library, password: Bytes, data: Bytes, d: OpenDraws, t: VaultState)
    requires OpenStored(lib, password, data, d) == Ok(t)
    ensures var e := ParseEnvelope(lib, data); e.Ok? && t.header == e.value.header && t.index.nonce == e.value.nonce
  {
    hide ParseEnvelope, Decode, DecodeLegacy, DeriveKeys;
    var e := ParseEnvelope(lib, data).value;
    var (enc, hmac) := DeriveKeys(lib, password, e.header).value;
  }

  /** Why the file behind these parts does not open, in the order of the checks. */
  ghost function OpenFailure(lib: Library, password: Bytes, h: VaultHeader, nonce: Nonce, sealed: Bytes): VaultError {
    var master := Master(lib, password, h);
    if master.None? then CryptoError(Kdf)
    else
      var enc, hmac := lib.hkdf(h.kdfSalt, master.value, EncryptionSubkey), lib.hkdf(h.kdfSalt, master.value, HmacSubkey);
      if enc.None? || hmac.None? then CryptoError(Hkdf)
      else if |sealed| < 16 || lib.open(enc.value, nonce, sealed, PrintHeader(h)).None? then InvalidPassword
      else
        var plain := lib.open(enc.value, nonce, sealed, PrintHeader(h)).value;
        if forall c :: !(Content(lib, h.version, plain, c) && Ahead(c)) then CorruptedData else CryptoError(LockedMemory)
  }

  /** What is no file is corrupted data; of a file `open` reports the first check that fails. */
  lemma OpenRefused(lib: Library, password: Bytes, data: Bytes, d: OpenDraws)
    requires lib.HeaderLaw() && OpenStored(lib, password, data, d).Err?
    ensures (forall h, nonce, skipped, sealed :: !(InRange(h) && FileOf(data, h, nonce, skipped, sealed))) ==>
            OpenStored(lib, password, data, d) == Err(CorruptedData)
    ensures forall h, nonce, skipped, sealed :: InRange(h) && FileOf(data, h, nonce, skipped, sealed) ==>
            OpenStored(lib, password, data, d) == Err(OpenFailure(lib, password, h, nonce, sealed))
  {
    hide ParseEnvelope, InRange, FileOf, OpenStored, OpenFailure;
    if ParseEnvelope(lib, data).Ok? {
      var e := ParseEnvelope(lib, data).value;
      EnvelopeConcrete(lib, data, e.header, e.nonce, e.encryptedIndex);
      RefusedFile(lib, password, data, d, e);
    } else {
      RefusedBytes(lib, password, data, d);
    }
    forall h, nonce, skipped, sealed | InRange(h) && FileOf(data, h, nonce, skipped, sealed)
      ensures OpenStored(lib, password, data, d) == Err(OpenFailure(lib, password, h, nonce, sealed))
    {
      EnvelopeConcrete(lib, data, h, nonce, sealed);
      RefusedFile(lib, password, data, d, Envelope(h, nonce, sealed));
    }
  }

  lemma RefusedBytes(lib: Library, password: Bytes, data: Bytes, d: OpenDraws)
    requires ParseEnvelope(lib, data).Err?
    ensures OpenStored(lib, password, data, d) == Err(CorruptedData)
  {
    hide ParseEnvelope, Decode, DecodeLegacy, DeriveKeys;
    EnvelopeErrors(lib, data);
  }

  lemma RefusedFile(lib: Library, password: Bytes, data: Bytes, d: OpenDraws, e: Envelope)
    requires ParseEnvelope(lib, data) == Ok(e) && OpenStored(lib, password, data, d).Err?
    ensures OpenStored(lib, password, data, d) == Err(OpenFailure(lib, password, e.header, e.nonce, e.encryptedIndex))
  {
    hide ParseEnvelope, Decode, DecodeLegacy, PrintHeader, Content;
    var h := e.header;
    if DeriveKeys(lib, password, h).Ok? {
      var (enc, hmac) := DeriveKeys(lib, password, h).value;
      KeysExact(lib, password, h, enc, hmac);
      var plain := lib.Open(enc, e.nonce, e.encryptedIndex, PrintHeader(h));
      if plain.Ok? {
        DecodeErrors(plain.value, lib.parseIndexV1(plain.value));
        var decoded := if h.version == 1 then DecodeLegacy(lib.parseIndexV1(plain.value)) else Decode(plain.value);
        forall c: IndexData ensures Content(lib, h.version, plain.value, c) <==> decoded == Ok(c) {
          ContentExact(lib, h.version, plain.value, c);
        }
      }
    }
  }

  /**
   * Every genuine version 1 file is read: whatever document was sealed behind whatever 8 bytes, if its counter is ahead
   * the stored vault holds exactly its real entries.
   */
  lemma LegacyOpens(lib: Library, password: Bytes, h: VaultHeader, enc: Key, hmac: Key, nonce: Nonce, skipped: Bytes,
                    plain: Bytes, data: Bytes, d: OpenDraws)
    requires lib.Lawful() && InRange(h) && h.version == 1 && PasswordKeys(lib, password, h, enc, hmac)
    requires |plain| <= AEAD_MAX_PLAINTEXT && lib.seal(enc, nonce, plain, PrintHeader(h)).Some?
    requires FileOf(data, h, nonce, skipped, lib.seal(enc, nonce, plain, PrintHeader(h)).value)
    requires Document(lib.parseIndexV1(plain)) && d.lockEnc && d.lockHmac
    requires var document := lib.parseIndexV1(plain).value;
      forall key :: key in document.files && !document.files[key].isDummy ==> document.files[key].dataCounter < document.dataNonceCounter
    ensures var r := OpenStored(lib, password, data, d);
      && r.Ok? && r.value.header == h
      && r.value.index.nonce == nonce && r.value.index.encKey == enc && r.value.index.hmacKey == hmac
      && ContentOf(lib.parseIndexV1(plain).value, Contents(r.value.index))
      && Open(lib, password, data, d) == Rekeyed(lib, r.value, password, d.rekey)
  {
    hide OpenStored, Open, PrintHeader, PasswordKeys, RealEntry, ContentOf, FileOf, InRange, Rekeyed;
    var sealed := lib.seal(enc, nonce, plain, PrintHeader(h)).value;
    assert lib.Seal(enc, nonce, plain, PrintHeader(h)) == Ok(sealed);
    assert lib.Open(enc, nonce, sealed, PrintHeader(h)) == Ok(plain);
    var document := lib.parseIndexV1(plain).value;
    var c := DocumentContent(document);
    var t := VaultState(h, IndexState(nonce, c.nonceCounter, c.dataNonceCounter, c.files, enc, hmac));
    assert Reads(lib, password, sealed, t);
    OpenConcrete(lib, password, data, d, t);
  }

  lemma DocumentContent(document: LegacyIndex) returns (c: IndexData)
    requires Document(Some(document))
    ensures ContentOf(document, c)
    ensures (forall key :: key in document.files && !document.files[key].isDummy ==>
              document.files[key].dataCounter < document.dataNonceCounter) ==> Ahead(c)
  {
    hide DecodeLegacy, Document;
    LegacyExact(Some(document));
    c := DecodeLegacy(Some(document)).value;
  }

  // ---------------------------------------------------------------- change of password and re-keying

  /**
   * A change of password first checks the length of the new one, then derives the keys of the current one and compares the
   * encryption key with the one in memory; only then it re-keys. Whatever fails leaves the vault as it was.
   */
  lemma ChangePasswordConcrete(lib: Library, s: VaultState, current: Bytes, newPassword: Bytes, d: RekeyDraws)
    ensures var (t, r) := ChangePassword(lib, s, current, newPassword, d); var rekeyed := Rekeyed(lib, s, newPassword, d);
      && (r.Err? ==> t == s)
      && (r == Err(InvalidInput(PasswordTooShort)) <== |newPassword| < 8)
      && (|newPassword| >= 8 && (forall enc, hmac :: !PasswordKeys(lib, current, s.header, enc, hmac)) ==>
            r == Err(KeyFailure(lib, current, s.header)))
      && (r == Err(InvalidPassword) <==>
            |newPassword| >= 8 && exists enc, hmac :: PasswordKeys(lib, current, s.header, enc, hmac) && enc != s.index.encKey)
      && (|newPassword| >= 8 && (exists hmac :: PasswordKeys(lib, current, s.header, s.index.encKey, hmac)) ==>
            if rekeyed.Ok? then t == rekeyed.value && r == Ok(()) else r == Err(rekeyed.error))
  {
    hide Rekeyed, PasswordKeys, DeriveKeys;
    var keys := DeriveKeys(lib, current, s.header);
    RekeyError(lib, s, newPassword, d);
    DeriveError(lib, current, s.header);
    forall enc, hmac ensures PasswordKeys(lib, current, s.header, enc, hmac) <==> keys == Ok((enc, hmac)) {
      KeysExact(lib, current, s.header, enc, hmac);
    }
    if keys.Ok? {
      var (enc, hmac) := keys.value;
      assert PasswordKeys(lib, current, s.header, enc, hmac);
    } else {
      KeysExact(lib, current, s.header, s.index.encKey, s.index.hmacKey);
    }
  }

  /** Name and secret of an entry, when both blobs open. */
  function NameOf(lib: Library, s: IndexState, key: Bytes): Option<Bytes> {
    if key in s.files then Opened(lib, s.encKey, key, s.files[key].dataCounter, s.files[key].encryptedName) else None
  }

  function SecretOf(lib: Library, s: IndexState, key: Bytes): Option<Bytes> {
    if key in s.files then Opened(lib, s.encKey, key, s.files[key].dataCounter, s.files[key].encryptedData) else None
  }

  /** What one step of a re-keying needs: an entry that opens to text and a secret, an HMAC under the new key, two nonces. */
  predicate StepFine(lib: Library, s: IndexState, key: Bytes, d: StoreDraws, hmacKey: Key) {
    && NameOf(lib, s, key).Some? && lib.utf8(NameOf(lib, s, key).value) && SecretOf(lib, s, key).Some?
    && lib.hmac(hmacKey, NameOf(lib, s, key).value).Some? && d.dataNonce.Some? && d.nameNonce.Some?
  }

  /** Why a step fails, in the order of its parts. */
  function StepFailure(lib: Library, s: IndexState, key: Bytes, hmacKey: Key): VaultError {
    var name := NameOf(lib, s, key);
    if name.None? then CryptoError(Aead)
    else if !lib.utf8(name.value) then CorruptedData
    else if SecretOf(lib, s, key).None? then CryptoError(Aead)
    else if lib.hmac(hmacKey, name.value).None? then CryptoError(Hmac)
    else CryptoError(Random)
  }

  /** Where step `j` of the walk puts its entry. */
  function NewKey(lib: Library, s: IndexState, key: Bytes, hmacKey: Key): Bytes {
    match NameOf(lib, s, key)
    case None => []
    case Some(name) => match lib.hmac(hmacKey, name) case None => [] case Some(tag) => Hex(tag)
  }

  /** The entry under `key` is the one that step `c` sealed, `c` being its counter, under that step's own nonces. */
  ghost predicate FromStep(lib: Library, s: IndexState, order: seq<Bytes>, d: RekeyDraws, t: IndexState, key: Bytes)
    requires key in t.files
  {
    var e := t.files[key]; var c := e.dataCounter;
    && c < |order| && NameOf(lib, s, order[c]).Some? && SecretOf(lib, s, order[c]).Some?
    && key == NewKey(lib, s, order[c], t.hmacKey)
    && SealedUnder(lib, t.encKey, key, NameOf(lib, s, order[c]).value, SecretOf(lib, s, order[c]).value, d.At(c), e)
  }

  /**
   * What `i` steps of the walk make: under the new key of each of them stands an entry of that step or of a later one, and
   * every entry stems from a step. So the last step with a given key wins.
   */
  ghost predicate Resealed(lib: Library, s: IndexState, order: seq<Bytes>, d: RekeyDraws, t: IndexState, i: nat)
    requires i <= |order|
  {
    && t.dataNonceCounter == i && |t.files| <= i
    && (forall j :: 0 <= j < i ==>
         NewKey(lib, s, order[j], t.hmacKey) in t.files && j <= t.files[NewKey(lib, s, order[j], t.hmacKey)].dataCounter)
    && forall key :: key in t.files ==> t.files[key].dataCounter < i && FromStep(lib, s, order, d, t, key)
  }

  lemma StepConcrete(lib: Library, s: IndexState, order: seq<Bytes>, d: RekeyDraws, i: nat, acc: VaultState)
    requires lib.Lawful() && WellFormed(s.files) && i < |order| <= 1024 && order[i] in s.files
    requires Resealed(lib, s, order, d, acc.index, i)
    ensures var entry := DecryptEntry(lib, s, order[i]); var fine := StepFine(lib, s, order[i], d.At(i), acc.index.hmacKey);
      && (entry.Err? ==> !fine && entry == Err(StepFailure(lib, s, order[i], acc.index.hmacKey)))
      && (entry.Ok? ==>
           && NameOf(lib, s, order[i]) == Some(entry.value.0) && SecretOf(lib, s, order[i]) == Some(entry.value.1)
           && var (t, r) := Store(lib, acc, entry.value.0, entry.value.1, d.At(i));
              && (r.Ok? <==> fine) && (r.Err? ==> r.error == StepFailure(lib, s, order[i], acc.index.hmacKey)))
  {
    hide Store, Le, SealedUnder, Hex, ParseKey;
    if DecryptEntry(lib, s, order[i]).Ok? {
      var (name, data) := DecryptEntry(lib, s, order[i]).value;
      GenuineWithinLimits(lib, s, order[i]);
      StoreConcrete(lib, acc, name, data, d.At(i));
    }
  }

  lemma StepResealed(lib: Library, s: IndexState, order: seq<Bytes>, d: RekeyDraws, i: nat, acc: VaultState, name: Bytes, data: Bytes)
    requires lib.Lawful() && i < |order| && Resealed(lib, s, order, d, acc.index, i)
    requires NameOf(lib, s, order[i]) == Some(name) && SecretOf(lib, s, order[i]) == Some(data)
    requires Store(lib, acc, name, data, d.At(i)).1.Ok?
    ensures var t := Store(lib, acc, name, data, d.At(i)).0;
      && Resealed(lib, s, order, d, t.index, i + 1) && t.header == acc.header
      && t.index == acc.index.(dataNonceCounter := t.index.dataNonceCounter, files := t.index.files)
  {
    hide Store, SealedUnder, Hex, NameOf, SecretOf, FromStep, NewKey;
    StoreConcrete(lib, acc, name, data, d.At(i));
    var t := Store(lib, acc, name, data, d.At(i)).0.index;
    var key := NewKey(lib, s, order[i], acc.index.hmacKey);
    NewKeyText(lib, s, order[i], acc.index.hmacKey, name);
    assert t.files.Keys == acc.index.files.Keys + {key};
    NewFromStep(lib, s, order, d, t, key, name, data);
    forall k | k in t.files ensures t.files[k].dataCounter < i + 1 && FromStep(lib, s, order, d, t, k) {
      if k != key {
        OldFromStep(lib, s, order, d, acc.index, t, k);
      }
    }
  }

  lemma NewKeyText(lib: Library, s: IndexState, key: Bytes, hmacKey: Key, name: Bytes)
    requires NameOf(lib, s, key) == Some(name) && lib.hmac(hmacKey, name).Some?
    ensures NewKey(lib, s, key, hmacKey) == Hex(lib.hmac(hmacKey, name).value)
  {
  }

  lemma NewFromStep(lib: Library, s: IndexState, order: seq<Bytes>, d: RekeyDraws, t: IndexState, key: Bytes, name: Bytes, data: Bytes)
    requires key in t.files && t.files[key].dataCounter < |order|
    requires var c := t.files[key].dataCounter;
      && NameOf(lib, s, order[c]) == Some(name) && SecretOf(lib, s, order[c]) == Some(data)
      && key == NewKey(lib, s, order[c], t.hmacKey) && SealedUnder(lib, t.encKey, key, name, data, d.At(c), t.files[key])
    ensures FromStep(lib, s, order, d, t, key)
  {
  }

  lemma OldFromStep(lib: Library, s: IndexState, order: seq<Bytes>, d: RekeyDraws, a: IndexState, t: IndexState, key: Bytes)
    requires key in a.files && key in t.files && a.files[key] == t.files[key] && a.encKey == t.encKey && a.hmacKey == t.hmacKey
    requires FromStep(lib, s, order, d, a, key)
    ensures FromStep(lib, s, order, d, t, key)
  {
  }

  lemma {:induction false} ReencryptConcrete(lib: Library, s: IndexState, order: seq<Bytes>, d: RekeyDraws, i: nat, acc: VaultState)
    requires lib.Lawful() && WellFormed(s.files) && Enumerates(order, s.files.Keys) && i <= |order| <= 1024
    requires Resealed(lib, s, order, d, acc.index, i)
    ensures var r := ReencryptFrom(lib, s, order, d, i, acc);
      && (r.Ok? ==>
           && (forall j :: i <= j < |order| ==> StepFine(lib, s, order[j], d.At(j), acc.index.hmacKey))
           && Resealed(lib, s, order, d, r.value.index, |order|) && r.value.header == acc.header
           && r.value.index == acc.index.(dataNonceCounter := |order|, files := r.value.index.files))
      && (r.Err? ==> FirstFailure(lib, s, order, d, i, acc.index.hmacKey, r.error))
    decreases |order| - i
  {
    hide Store, DecryptEntry, WellFormed, Resealed, StepFine, StepFailure;
    if i < |order| {
      assert order[i] in order;
      StepConcrete(lib, s, order, d, i, acc);
      if DecryptEntry(lib, s, order[i]).Ok? {
        var (name, data) := DecryptEntry(lib, s, order[i]).value;
        var (next, r) := Store(lib, acc, name, data, d.At(i));
        if r.Ok? {
          StepResealed(lib, s, order, d, i, acc, name, data);
          ReencryptConcrete(lib, s, order, d, i + 1, next);
        }
      }
    }
    ResealedCounter(lib, s, order, d, ReencryptFrom(lib, s, order, d, i, acc));
  }

  /** `error` is that of the first step from `i` on that fails. */
  ghost predicate FirstFailure(lib: Library, s: IndexState, order: seq<Bytes>, d: RekeyDraws, i: nat, hmacKey: Key, error: VaultError) {
    exists j :: i <= j < |order|
      && (forall k :: i <= k < j ==> StepFine(lib, s, order[k], d.At(k), hmacKey))
      && !StepFine(lib, s, order[j], d.At(j), hmacKey) && error == StepFailure(lib, s, order[j], hmacKey)
  }

  lemma ResealedCounter(lib: Library, s: IndexState, order: seq<Bytes>, d: RekeyDraws, r: Result<VaultState>)
    ensures r.Ok? && Resealed(lib, s, order, d, r.value.index, |order|) ==> r.value.index.dataNonceCounter == |order|
  {
  }

  /**
   * Re-keying any well-formed index, genuine or not: it succeeds exactly when a vault can be set up and every step is fine,
   * and reports the first thing that fails; each entry is then sealed afresh under the nonces of its own step, and where
   * names share an HMAC the last one walked is kept.
   */
  lemma RekeyConcrete(lib: Library, s: VaultState, password: Bytes, d: RekeyDraws)
    requires lib.Lawful() && IsWalk(d.walk) && WellFormed(s.index.files)
    ensures var r := Rekeyed(lib, s, password, d); var order := d.walk(s.index.files.Keys);
      && (r.Ok? ==>
           && d.salt.Some? && SetUp(lib, password, d.salt.value, d.keys,
                r.value.(index := r.value.index.(dataNonceCounter := 0, files := map[])))
           && (forall j :: 0 <= j < |order| ==> StepFine(lib, s.index, order[j], d.At(j), r.value.index.hmacKey))
           && Resealed(lib, s.index, order, d, r.value.index, |order|))
      && (r.Err? ==>
           || (r == Err(SetUpFailure(lib, password, d.salt, d.keys))
               && forall t :: !(d.salt.Some? && SetUp(lib, password, d.salt.value, d.keys, t)))
           || exists t :: d.salt.Some? && SetUp(lib, password, d.salt.value, d.keys, t)
                && FirstFailure(lib, s.index, order, d, 0, t.index.hmacKey, r.error))
  {
    hide ReencryptFrom, NewVault, SetUp, SetUpFailure, WellFormed, Resealed, StepFine, FirstFailure;
    var empty := NewVault(lib, password, d.salt, d.keys);
    forall t ensures empty == Ok(t) <==> d.salt.Some? && SetUp(lib, password, d.salt.value, d.keys, t) {
      NewVaultExact(lib, password, d.salt, d.keys, t);
    }
    if empty.Ok? {
      var order := d.walk(s.index.files.Keys);
      WalkSize(s.index.files, order);
      NewVaultReady(lib, password, d.salt, d.keys);
      NothingResealed(lib, s.index, order, d, empty.value.index);
      ReencryptConcrete(lib, s.index, order, d, 0, empty.value);
      var r := Rekeyed(lib, s, password, d);
      if r.Ok? {
        assert r.value.(index := r.value.index.(dataNonceCounter := 0, files := map[])) == empty.value;
      }
    } else {
      NewVaultRefused(lib, password, d.salt, d.keys);
    }
  }

  lemma WalkSize(files: Files, order: seq<Bytes>)
    requires WellFormed(files) && Enumerates(order, files.Keys)
    ensures |order| <= 1024
  {
    EnumerationSize(order, files.Keys);
  }

  lemma NothingResealed(lib: Library, s: IndexState, order: seq<Bytes>, d: RekeyDraws, t: IndexState)
    requires t.files == map[] && t.dataNonceCounter == 0
    ensures Resealed(lib, s, order, d, t, 0)
  {
  }
}
