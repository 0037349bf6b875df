/** Export then open: the size of a vault file, and the vault that comes back. */
module RoundTrip {
  import opened Access
  import opened Binary
  import opened Constants
  import opened Enumerations
  import opened Envelopes
  import opened Externals
  import opened IndexCodec
  import opened Invariants
  import opened LegacyIndexes
  import opened Rekeying
  import opened Results
  import opened VaultHeaders
  import opened VaultIndexes
  import opened VaultModel

  const EXPORT_OVERHEAD := 66
  const SECRET_OVERHEAD := 128

  // ---------------------------------------------------------------- size

  /** Length of the file that holds `files` behind `header`. */
  function ExportLength(header: VaultHeader, files: Files, order: seq<Bytes>): nat {
    EXPORT_OVERHEAD + |PrintHeader(header)| + Sum(EntryCost(files), order)
  }

  /** Serializing a well-formed index succeeds exactly when the file fits; the AEAD and the encoder never refuse. */
  lemma SerializeExact(lib: Library, s: VaultState, walk: Walk)
    requires lib.Lawful() && IsWalk(walk) && WellFormed(s.index.files)
    ensures var length := ExportLength(s.header, s.index.files, walk(s.index.files.Keys));
      && (Serialize(lib, s, walk).Ok? <==> length <= MAX_VAULT_FILE_SIZE)
      && (Serialize(lib, s, walk).Ok? ==> |Serialize(lib, s, walk).value| == length)
      && (Serialize(lib, s, walk).Err? ==> Serialize(lib, s, walk) == Err(SerializationError))
  {
    hide PrintHeader, Frame, RawEncode, WellFormed, Sum;
    var order := walk(s.index.files.Keys);
    EncodedIndex(Contents(s.index), order);
    TotalFits(s.index.files, order);
    var plain := Encode(Contents(s.index), order).value;
    var sealed := lib.Seal(s.index.encKey, s.index.nonce, plain, PrintHeader(s.header)).value;
    FrameParts(s.header, s.index.nonce, sealed);
  }

  lemma EncodedIndex(d: IndexData, order: seq<Bytes>)
    requires WellFormed(d.files) && Enumerates(order, d.files.Keys)
    ensures Encode(d, order).Ok?
    ensures |Encode(d, order).value| == INDEX_PREAMBLE_LEN + Sum(EntryCost(d.files), order)
  {
    OrderedEntriesOk(d.files, order);
    EncodedLength(d.files, order);
    EnumerationSize(order, d.files.Keys);
  }

  function SecretCost(secrets: map<Bytes, Bytes>): Bytes -> nat {
    name => if name in secrets then SECRET_OVERHEAD + |name| + |secrets[name]| else 0
  }

  lemma {:induction false} SumMapped(f: Bytes -> nat, g: Bytes -> nat, a: seq<Bytes>, b: seq<Bytes>)
    requires |a| == |b| && forall i :: 0 <= i < |a| ==> f(a[i]) == g(b[i])
    ensures Sum(f, a) == Sum(g, b)
  {
    if a != [] {
      SumMapped(f, g, a[1..], b[1..]);
    }
  }

  lemma EntryCostsItsSecret(lib: Library, s: IndexState, key: Bytes)
    requires lib.Lawful() && WellFormed(s.files) && Genuine(lib, s) && key in s.files
    ensures EntryCost(s.files)(key) == SecretCost(Secrets(lib, s))(NameAt(lib, s, key))
  {
    hide DecryptEntry, KeyForName, Secrets, NameAt, DataAt;
    EntrySecret(lib, s, key);
    assert EntryGenuine(lib, s, key);
    GenuineWithinLimits(lib, s, key);
  }

  /** Each secret costs its length, its name's length and 128 bytes. */
  lemma SecretsCost(lib: Library, s: IndexState, order: seq<Bytes>, names: seq<Bytes>)
    requires lib.Lawful() && WellFormed(s.files) && Genuine(lib, s)
    requires Enumerates(order, s.files.Keys) && Enumerates(names, Secrets(lib, s).Keys)
    ensures Sum(EntryCost(s.files), order) == Sum(SecretCost(Secrets(lib, s)), names)
  {
    hide DecryptEntry, KeyForName, Secrets, NameAt, DataAt, Sum, EntryCost, SecretCost, WellFormed;
    var walked := seq(|order|, i requires 0 <= i < |order| => NameAt(lib, s, order[i]));
    forall i | 0 <= i < |order|
      ensures KeyForName(lib, s.hmacKey, walked[i]) == Ok(order[i]) && walked[i] in Secrets(lib, s)
      ensures EntryCost(s.files)(order[i]) == SecretCost(Secrets(lib, s))(walked[i])
    {
      assert order[i] in order;
      EntrySecret(lib, s, order[i]);
      EntryCostsItsSecret(lib, s, order[i]);
    }
    forall name | name in Secrets(lib, s).Keys ensures name in walked {
      SecretsExact(lib, s, name);
      assert KeyText(lib, s, name) in order;
      var i :| 0 <= i < |order| && order[i] == KeyText(lib, s, name);
      assert walked[i] == name;
    }
    SumMapped(EntryCost(s.files), SecretCost(Secrets(lib, s)), order, walked);
    SumOrderFree(SecretCost(Secrets(lib, s)), walked, names, Secrets(lib, s).Keys);
  }

  /**
   * Once the nonce has advanced, export succeeds exactly when 66 bytes, the header and every secret with its
   * name and 128 bytes of overhead fit 256 MiB, in whatever order the map is walked; that sum is the file's length.
   */
  lemma ExportExact(lib: Library, s: VaultState, draw: Option<Nonce>, walk: Walk, names: seq<Bytes>)
    requires lib.Lawful() && IsWalk(walk) && WellFormed(s.index.files) && Genuine(lib, s.index)
    requires Enumerates(names, Secrets(lib, s.index).Keys)
    ensures var r := Export(lib, s, draw, walk).1;
      var length := EXPORT_OVERHEAD + |PrintHeader(s.header)| + Sum(SecretCost(Secrets(lib, s.index)), names);
      && (r.Ok? <==> s.index.nonceCounter < U64_MAX && draw.Some? && length <= MAX_VAULT_FILE_SIZE)
      && (r.Ok? ==> |r.value| == length)
  {
    hide PrintHeader, WellFormed, Genuine, Sum, Serialize, Secrets;
    SerializeExact(lib, Export(lib, s, draw, walk).0, walk);
    SecretsCost(lib, s.index, walk(s.index.files.Keys), names);
  }

  /** Length of the file that holds these secrets behind a header. */
  ghost function FileSize(header: VaultHeader, secrets: map<Bytes, Bytes>): nat {
    EXPORT_OVERHEAD + |PrintHeader(header)| + Sum(SecretCost(secrets), AnyOrder(secrets.Keys))
  }

  /** What export answers, in the order the checks come. */
  lemma ExportAnswer(lib: Library, s: VaultState, draw: Option<Nonce>, walk: Walk)
    requires lib.Lawful() && IsWalk(walk) && WellFormed(s.index.files) && Genuine(lib, s.index)
    ensures var r := Export(lib, s, draw, walk).1; var size := FileSize(s.header, Secrets(lib, s.index));
      if s.index.nonceCounter == U64_MAX then r == Err(CryptoError(CounterOverflow))
      else if draw.None? then r == Err(CryptoError(Random))
      else if size > MAX_VAULT_FILE_SIZE then r == Err(SerializationError)
      else r.Ok? && |r.value| == size
  {
    hide PrintHeader, WellFormed, Genuine, Sum, Serialize, Secrets;
    var secrets := Secrets(lib, s.index);
    AnyOrderEnumerates(secrets.Keys);
    ExportExact(lib, s, draw, walk, AnyOrder(secrets.Keys));
    SerializeExact(lib, Export(lib, s, draw, walk).0, walk);
  }

  // ---------------------------------------------------------------- export

  /** Export leaves everything but the nonce and its counter, which never moves back, even when it fails. */
  lemma ExportEffect(lib: Library, s: VaultState, draw: Option<Nonce>, walk: Walk)
    ensures var (t, r) := Export(lib, s, draw, walk);
      && t.header == s.header
      && t.index == s.index.(nonce := t.index.nonce, nonceCounter := t.index.nonceCounter)
      && s.index.nonceCounter <= t.index.nonceCounter <= s.index.nonceCounter + 1
      && (r.Ok? ==> t.index.nonceCounter == s.index.nonceCounter + 1 && draw == Some(t.index.nonce)
                    && r == Serialize(lib, t, walk))
  {
  }

  lemma ExportKeeps(lib: Library, s: VaultState, draw: Option<Nonce>, walk: Walk, password: Bytes)
    requires KeyedBy(lib, s, password)
    ensures var t := Export(lib, s, draw, walk).0;
      && KeyedBy(lib, t, password)
      && (Sound(s) ==> Sound(t))
      && (Genuine(lib, s.index) ==> Genuine(lib, t.index))
      && Secrets(lib, t.index) == Secrets(lib, s.index)
  {
    hide Export, Secrets, Genuine, WellFormed;
    ExportEffect(lib, s, draw, walk);
    SameSecrets(lib, s.index, Export(lib, s, draw, walk).0.index);
  }

  // ---------------------------------------------------------------- open

  /** What opening a file yields: the vault, unless locked memory cannot be had. */
  ghost predicate OpensTo(lib: Library, password: Bytes, data: Bytes, s: VaultState) {
    forall d: OpenDraws ::
      Open(lib, password, data, d) == if d.lockEnc && d.lockHmac then Ok(s) else Err(CryptoError(LockedMemory))
  }

  lemma SerializeOpens(lib: Library, s: VaultState, password: Bytes, walk: Walk, d: OpenDraws)
    requires lib.Lawful() && IsWalk(walk) && Sound(s) && KeyedBy(lib, s, password)
    requires Serialize(lib, s, walk).Ok?
    ensures Open(lib, password, Serialize(lib, s, walk).value, d) ==
            if d.lockEnc && d.lockHmac then Ok(s) else Err(CryptoError(LockedMemory))
  {
    hide PrintHeader, Frame, RawEncode, WellFormed, Encode, Decode, ParseEnvelope, DeriveKeys, Rekeyed, DecodeLegacy;
    var order := walk(s.index.files.Keys);
    DecodeEncode(Contents(s.index), order);
    EncodedIndex(Contents(s.index), order);
    TotalFits(s.index.files, order);
    var plain := Encode(Contents(s.index), order).value;
    var sealed := lib.Seal(s.index.encKey, s.index.nonce, plain, PrintHeader(s.header)).value;
    assert [] + sealed == sealed;
    ParseFrame(lib, s.header, s.index.nonce, [], sealed);
  }

  /**
   * Whole-vault round trip: whatever `export` returns, `open` with the vault's password accepts and gives back
   * the vault as export left it: same header, keys, nonce, counters and entries.
   */
  lemma ExportOpens(lib: Library, s: VaultState, password: Bytes, draw: Option<Nonce>, walk: Walk)
    requires lib.Lawful() && IsWalk(walk) && Sound(s) && KeyedBy(lib, s, password)
    requires Export(lib, s, draw, walk).1.Ok?
    ensures var (t, r) := Export(lib, s, draw, walk); OpensTo(lib, password, r.value, t)
  {
    hide Export, Open, Serialize, Sound, KeyedBy;
    ExportEffect(lib, s, draw, walk);
    ExportKeeps(lib, s, draw, walk, password);
    var (t, r) := Export(lib, s, draw, walk);
    forall d: OpenDraws
      ensures Open(lib, password, r.value, d) == if d.lockEnc && d.lockHmac then Ok(t) else Err(CryptoError(LockedMemory))
    {
      SerializeOpens(lib, t, password, walk, d);
    }
  }

  lemma {:induction false} ReencryptSound(lib: Library, from: IndexState, order: seq<Bytes>, d: RekeyDraws, i: nat, acc: VaultState)
    requires lib.Lawful() && Sound(acc) && Genuine(lib, acc.index)
    ensures var r := ReencryptFrom(lib, from, order, d, i, acc);
      r.Ok? ==> Sound(r.value) && Genuine(lib, r.value.index) && r.value.header == acc.header
                && r.value.index.encKey == acc.index.encKey && r.value.index.hmacKey == acc.index.hmacKey
    decreases |order| - i
  {
    hide Store, DecryptEntry, Sound, Genuine;
    if i < |order| && DecryptEntry(lib, from, order[i]).Ok? {
      var (name, data) := DecryptEntry(lib, from, order[i]).value;
      DecryptedUtf8(lib, from, order[i]);
      StoreKeepsSound(lib, acc, name, data, d.At(i));
      StoreGenuine(lib, acc, name, data, d.At(i));
      StoreEffect(lib, acc, name, data, d.At(i));
      var (next, r) := Store(lib, acc, name, data, d.At(i));
      if r.Ok? {
        ReencryptSound(lib, from, order, d, i + 1, next);
      }
    }
  }

  lemma DecryptedUtf8(lib: Library, s: IndexState, key: Bytes)
    requires DecryptEntry(lib, s, key).Ok?
    ensures lib.utf8(DecryptEntry(lib, s, key).value.0)
  {
  }

  /** Re-keying any index at all, if it succeeds, yields a sound and genuine vault keyed by the password. */
  lemma RekeyedSound(lib: Library, s: VaultState, password: Bytes, d: RekeyDraws)
    requires lib.Lawful() && Rekeyed(lib, s, password, d).Ok?
    ensures var t := Rekeyed(lib, s, password, d).value;
      Sound(t) && Genuine(lib, t.index) && KeyedBy(lib, t, password)
  {
    hide ReencryptFrom, Genuine, NewVault, Sound;
    NewVaultReady(lib, password, d.salt, d.keys);
    var empty := NewVault(lib, password, d.salt, d.keys).value;
    NothingCarried(lib, s.index, [], empty.index);
    ReencryptSound(lib, s.index, d.walk(s.index.files.Keys), d, 0, empty);
  }

  /** Whatever bytes `open` accepts, of either version, the vault is sound and keyed by the password. */
  lemma OpenSound(lib: Library, password: Bytes, data: Bytes, d: OpenDraws)
    requires lib.Lawful()
    ensures var r := Open(lib, password, data, d); r.Ok? ==> Sound(r.value) && KeyedBy(lib, r.value, password)
  {
    hide Rekeyed, Decode, DecodeLegacy, ParseEnvelope, WellFormed, DeriveKeys;
    if Open(lib, password, data, d).Ok? {
      var stored := OpenStored(lib, password, data, d).value;
      if stored.header.version == LEGACY_VAULT_VERSION_1 {
        RekeyedSound(lib, stored, password, d.rekey);
      } else {
        var e := ParseEnvelope(lib, data).value;
        ParsedFrame(lib, data);
        var (enc, hmac) := DeriveKeys(lib, password, e.header).value;
        var plain := lib.Open(stored.index.encKey, e.nonce, e.encryptedIndex, PrintHeader(e.header)).value;
        DecodedWellFormed(plain);
      }
    }
  }

  /** The index of a file once it has authenticated under the password. */
  function OpenedPlaintext(lib: Library, password: Bytes, data: Bytes): Result<Bytes> {
    var e :- ParseEnvelope(lib, data);
    var (enc, _) :- DeriveKeys(lib, password, e.header);
    lib.Open(enc, e.nonce, e.encryptedIndex, PrintHeader(e.header))
  }

  /** The version 1 document in a file. */
  function LegacyDocument(lib: Library, password: Bytes, data: Bytes): Option<LegacyIndex> {
    match OpenedPlaintext(lib, password, data)
    case Err(_) => None
    case Ok(plain) => lib.parseIndexV1(plain)
  }

  /** The vault opened from a version 1 file holds exactly the entries its own document does not mark dummy, blob for blob. */
  lemma LegacyStored(lib: Library, password: Bytes, data: Bytes, d: OpenDraws)
    requires OpenStored(lib, password, data, d).Ok?
    requires OpenStored(lib, password, data, d).value.header.version == LEGACY_VAULT_VERSION_1
    ensures var stored := OpenStored(lib, password, data, d).value.index; var document := LegacyDocument(lib, password, data);
      && document.Some? && WellFormed(stored.files)
      && stored.nonceCounter == document.value.nonceCounter && stored.dataNonceCounter == document.value.dataNonceCounter
      && stored.files.Keys == RealKeys(document.value.files)
      && forall key :: key in stored.files ==> Carries(document.value.files[key], stored.files[key])
  {
    hide ParseEnvelope, WellFormed, DeriveKeys;
    var e := ParseEnvelope(lib, data).value;
    var (enc, hmac) := DeriveKeys(lib, password, e.header).value;
    LegacyWellFormed(LegacyDocument(lib, password, data));
  }

  /** A real entry of the document decrypts to this name and this secret. */
  ghost predicate DocumentHolds(lib: Library, encKey: Key, document: LegacyIndex, name: Bytes, secret: Bytes) {
    exists key :: key in RealKeys(document.files) && EntryReads(lib, encKey, key, document.files[key], name, secret)
  }

  predicate EntryReads(lib: Library, encKey: Key, key: Bytes, e: LegacyEntry, name: Bytes, secret: Bytes) {
    && e.encryptedName.Some? && e.encryptedData.Some?
    && var aad := BuildEntryAad(key, e.dataCounter);
       OpenBlob(lib, encKey, e.encryptedName.value, aad) == Ok(name) && OpenBlob(lib, encKey, e.encryptedData.value, aad) == Ok(secret)
  }

  /** These are exactly the names and secrets of the document's real entries. */
  ghost predicate DocumentSecrets(lib: Library, encKey: Key, document: LegacyIndex, secrets: map<Bytes, Bytes>) {
    forall name, secret :: Lookup(secrets, name) == Some(secret) <==> DocumentHolds(lib, encKey, document, name, secret)
  }

  lemma StoredSecrets(lib: Library, s: IndexState, document: LegacyIndex)
    requires Genuine(lib, s) && s.files.Keys == RealKeys(document.files)
    requires forall key :: key in s.files ==> Carries(document.files[key], s.files[key])
    ensures DocumentSecrets(lib, s.encKey, document, Secrets(lib, s))
  {
    hide Secrets, OpenBlob, BuildEntryAad, KeyForName;
    forall key, name, secret | key in s.files
      ensures EntryReads(lib, s.encKey, key, document.files[key], name, secret) <==> DecryptEntry(lib, s, key) == Ok((name, secret))
    {
      assert Carries(document.files[key], s.files[key]);
      assert EntryGenuine(lib, s, key);
    }
    forall name, secret
      ensures Lookup(Secrets(lib, s), name) == Some(secret) <==> DocumentHolds(lib, s.encKey, document, name, secret)
    {
      SecretsExact(lib, s, name);
      if name in Secrets(lib, s) {
        assert EntryGenuine(lib, s, KeyText(lib, s, name));
      }
      if key :| key in RealKeys(document.files) && EntryReads(lib, s.encKey, key, document.files[key], name, secret) {
        assert key in s.files;
        EntrySecret(lib, s, key);
      }
    }
  }

  lemma SameDocument(lib: Library, encKey: Key, document: LegacyIndex, a: map<Bytes, Bytes>, b: map<Bytes, Bytes>)
    requires DocumentSecrets(lib, encKey, document, a)
    ensures DocumentSecrets(lib, encKey, document, b) <==> a == b
  {
    hide DocumentHolds;
    if DocumentSecrets(lib, encKey, document, b) {
      forall name ensures Lookup(a, name) == Lookup(b, name) {
        if name in a { assert Lookup(a, name) == Some(a[name]); }
        if name in b { assert Lookup(b, name) == Some(b[name]); }
      }
      SameLookups(a, b);
    }
  }

  /**
   * Migration: the vault that `open` makes of a version 1 file with genuine entries holds exactly the names and secrets
   * of the document in the file, padding left out, if and only if those names do not collide under the new key.
   */
  lemma LegacyMigration(lib: Library, password: Bytes, data: Bytes, d: OpenDraws)
    requires lib.Lawful() && IsWalk(d.rekey.walk)
    requires OpenStored(lib, password, data, d).Ok?
    requires OpenStored(lib, password, data, d).value.header.version == LEGACY_VAULT_VERSION_1
    requires Genuine(lib, OpenStored(lib, password, data, d).value.index)
    ensures var stored := OpenStored(lib, password, data, d).value.index; var r := Open(lib, password, data, d);
      var document := LegacyDocument(lib, password, data);
      && document.Some? && WellFormed(stored.files)
      && DocumentSecrets(lib, stored.encKey, document.value, Secrets(lib, stored))
      && (r.Err? ==> Environmental(r.error))
      && (r.Ok? ==>
           && r.value.header.version == VAULT_VERSION && Sound(r.value) && KeyedBy(lib, r.value, password)
           && (DocumentSecrets(lib, stored.encKey, document.value, Secrets(lib, r.value.index))
               <==> NoCollision(lib, r.value.index.hmacKey, Secrets(lib, stored).Keys)))
  {
    hide Rekeyed, ParseEnvelope, WellFormed, DeriveKeys, Genuine, Secrets, NoCollision, KeyedBy, DocumentSecrets, LegacyDocument, Carries;
    var stored := OpenStored(lib, password, data, d).value;
    var document := LegacyDocument(lib, password, data);
    LegacyStored(lib, password, data, d);
    StoredSecrets(lib, stored.index, document.value);
    RekeyExact(lib, stored, password, d.rekey);
    if Open(lib, password, data, d).Ok? {
      var t := Open(lib, password, data, d).value;
      RekeyedSound(lib, stored, password, d.rekey);
      RekeyMeaning(lib, stored, password, d.rekey);
      SameDocument(lib, stored.index.encKey, document.value, Secrets(lib, stored.index), Secrets(lib, t.index));
    }
  }
}
