/** Re-keying: the loop that rebuilds a vault under new keys keeps what the vault means. */
module Rekeying {
  import opened Access
  import opened Binary
  import opened Constants
  import opened Enumerations
  import opened Externals
  import opened IndexCodec
  import opened Invariants
  import opened Results
  import opened VaultHeaders
  import opened VaultIndexes
  import opened VaultModel

  /** No two of these names share an HMAC. */
  ghost predicate NoCollision(lib: Library, hmacKey: Key, names: set<Bytes>) {
    forall a, b | a in names && b in names && KeyForName(lib, hmacKey, a).Ok? ::
      KeyForName(lib, hmacKey, a) == KeyForName(lib, hmacKey, b) ==> a == b
  }

  /** The names a vault holds never collide under its own key. */
  lemma StoredNamesDistinct(lib: Library, s: IndexState)
    requires Genuine(lib, s)
    ensures NoCollision(lib, s.hmacKey, Secrets(lib, s).Keys)
  {
  }

  lemma CollisionFreeLookup(lib: Library, s: IndexState, names: set<Bytes>, name: Bytes)
    requires NoCollision(lib, s.hmacKey, names) && name in names && Secrets(lib, s).Keys <= names && Genuine(lib, s)
    ensures NoClash(lib, s, name)
  {
  }

  // ---------------------------------------------------------------- the loop, any keys

  /** The errors that do not come from the vault itself. */
  predicate Environmental(e: VaultError) {
    e.CryptoError? && e.cause in {Random, Kdf, Hkdf, Hmac, LockedMemory}
  }

  /** The vault under construction after `i` entries. */
  ghost predicate UnderWay(lib: Library, i: nat, acc: VaultState) {
    && Sound(acc) && Genuine(lib, acc.index)
    && acc.index.dataNonceCounter == i && |acc.index.files| <= i <= MAX_INDEX_ENTRIES
  }

  /** What one iteration needs from outside the vault: an HMAC and two nonces. */
  ghost predicate StepReady(lib: Library, from: IndexState, key: Bytes, d: StoreDraws, hmacKey: Key) {
    KeyForName(lib, hmacKey, NameAt(lib, from, key)).Ok? && d.dataNonce.Some? && d.nameNonce.Some?
  }

  /** One iteration never fails on a limit, a full index, a counter, UTF-8 or the AEAD. */
  lemma ReencryptStep(lib: Library, from: IndexState, key: Bytes, d: StoreDraws, i: nat, acc: VaultState)
    requires lib.Lawful() && WellFormed(from.files) && Genuine(lib, from) && key in from.files
    requires UnderWay(lib, i, acc) && i < MAX_INDEX_ENTRIES
    ensures DecryptEntry(lib, from, key) == Ok((NameAt(lib, from, key), DataAt(lib, from, key)))
    ensures var (t, r) := Store(lib, acc, NameAt(lib, from, key), DataAt(lib, from, key), d);
      && (r.Ok? <==> StepReady(lib, from, key, d, acc.index.hmacKey))
      && (r.Err? ==> r.error == CryptoError(Random) || r.error == CryptoError(Hmac))
      && (r.Ok? ==> UnderWay(lib, i + 1, t) && t.header == acc.header
                    && t.index.encKey == acc.index.encKey && t.index.hmacKey == acc.index.hmacKey)
  {
    hide Store, Sound, SizesInWindow, OpenBlob, BuildEntryAad, KeyForName;
    assert EntryGenuine(lib, from, key);
    GenuineWithinLimits(lib, from, key);
    var name, data := NameAt(lib, from, key), DataAt(lib, from, key);
    StoreEffect(lib, acc, name, data, d);
    StoreGenuine(lib, acc, name, data, d);
    StoreRoom(lib, acc, name, data, d);
    StoreKeepsSound(lib, acc, name, data, d);
    StoreFailure(lib, acc, name, data, d);
  }

  lemma StoreKeepsSound(lib: Library, s: VaultState, name: Bytes, data: Bytes, d: StoreDraws)
    requires lib.Lawful() && Sound(s)
    ensures Sound(Store(lib, s, name, data, d).0)
  {
    hide Store;
    StoreSound(lib, s, name, data, d);
    StoreEffect(lib, s, name, data, d);
  }

  /** With the limits met, a counter and room, `store` fails only for lack of randomness or an HMAC. */
  lemma StoreFailure(lib: Library, s: VaultState, name: Bytes, data: Bytes, d: StoreDraws)
    requires lib.Lawful() && |name| <= MAX_ENTRY_NAME_LEN && |data| <= MAX_ENTRY_DATA_SIZE
    requires s.index.dataNonceCounter < U64_MAX && |s.index.files| < MAX_INDEX_ENTRIES
    ensures var r := Store(lib, s, name, data, d).1;
      r.Err? ==> r.error == CryptoError(Random) || r.error == CryptoError(Hmac)
  {
  }

  lemma {:induction false} ReencryptAll(lib: Library, from: IndexState, order: seq<Bytes>, d: RekeyDraws, i: nat, acc: VaultState)
    requires lib.Lawful() && WellFormed(from.files) && Genuine(lib, from)
    requires Enumerates(order, from.files.Keys) && i <= |order| <= MAX_INDEX_ENTRIES
    requires UnderWay(lib, i, acc)
    ensures var r := ReencryptFrom(lib, from, order, d, i, acc);
      && (r.Ok? <==> forall j :: i <= j < |order| ==> StepReady(lib, from, order[j], d.At(j), acc.index.hmacKey))
      && (r.Err? ==> r.error == CryptoError(Random) || r.error == CryptoError(Hmac))
      && (r.Ok? ==> UnderWay(lib, |order|, r.value) && r.value.header == acc.header
                    && r.value.index.encKey == acc.index.encKey && r.value.index.hmacKey == acc.index.hmacKey)
    decreases |order| - i
  {
    hide Store, DecryptEntry, UnderWay, WellFormed, Genuine, StepReady;
    if i < |order| {
      assert order[i] in order;
      ReencryptStep(lib, from, order[i], d.At(i), i, acc);
      var (next, r) := Store(lib, acc, NameAt(lib, from, order[i]), DataAt(lib, from, order[i]), d.At(i));
      if r.Ok? {
        ReencryptAll(lib, from, order, d, i + 1, next);
      }
    }
  }

  // ---------------------------------------------------------------- the loop, keys without collision

  /** Entry `j` of the walk sits in `acc` under its new key, with counter `j` and the same data. */
  ghost predicate CarriedAt(lib: Library, from: IndexState, order: seq<Bytes>, j: nat, acc: IndexState)
    requires j < |order|
  {
    var name := NameAt(lib, from, order[j]);
    && KeyForName(lib, acc.hmacKey, name) == Ok(KeyText(lib, acc, name))
    && KeyText(lib, acc, name) in acc.files && acc.files[KeyText(lib, acc, name)].dataCounter == j
    && Lookup(Secrets(lib, acc), name) == Some(DataAt(lib, from, order[j]))
  }

  ghost predicate FromWalk(lib: Library, from: IndexState, order: seq<Bytes>, i: nat, name: Bytes)
    requires i <= |order|
  {
    exists j :: 0 <= j < i && NameAt(lib, from, order[j]) == name
  }

  ghost predicate Carried(lib: Library, from: IndexState, order: seq<Bytes>, i: nat, acc: IndexState)
    requires i <= |order|
  {
    && |acc.files| == i
    && (forall j :: 0 <= j < i ==> CarriedAt(lib, from, order, j, acc))
    && (forall name :: name in Secrets(lib, acc) ==> FromWalk(lib, from, order, i, name))
  }

  lemma WalkedName(lib: Library, from: IndexState, order: seq<Bytes>, j: nat)
    requires Genuine(lib, from) && Enumerates(order, from.files.Keys) && j < |order|
    ensures NameAt(lib, from, order[j]) in Secrets(lib, from)
    ensures KeyForName(lib, from.hmacKey, NameAt(lib, from, order[j])) == Ok(order[j])
    ensures Secrets(lib, from)[NameAt(lib, from, order[j])] == DataAt(lib, from, order[j])
  {
  }

  lemma NewNameFree(lib: Library, from: IndexState, order: seq<Bytes>, i: nat, acc: IndexState)
    requires Genuine(lib, from) && Genuine(lib, acc) && Enumerates(order, from.files.Keys) && i < |order|
    requires NoCollision(lib, acc.hmacKey, Secrets(lib, from).Keys)
    requires Carried(lib, from, order, i, acc)
    requires KeyForName(lib, acc.hmacKey, NameAt(lib, from, order[i])).Ok?
    ensures NoClash(lib, acc, NameAt(lib, from, order[i]))
    ensures NameAt(lib, from, order[i]) !in Secrets(lib, acc)
    ensures KeyText(lib, acc, NameAt(lib, from, order[i])) !in acc.files
  {
    hide Secrets, KeyForName, DecryptEntry, NameAt, DataAt, CarriedAt;
    var name := NameAt(lib, from, order[i]);
    WalkedName(lib, from, order, i);
    forall other | other in Secrets(lib, acc)
      ensures KeyForName(lib, acc.hmacKey, other) != KeyForName(lib, acc.hmacKey, name) && other != name
    {
      assert FromWalk(lib, from, order, i, other);
      var j :| 0 <= j < i && NameAt(lib, from, order[j]) == other;
      WalkedName(lib, from, order, j);
      assert other in Secrets(lib, from).Keys && name in Secrets(lib, from).Keys;
    }
    var key := KeyText(lib, acc, name);
    if key in acc.files {
      EntrySecret(lib, acc, key);
    }
  }

  /** What one successful `store` into the vault under construction adds. */
  lemma CarryStore(lib: Library, from: IndexState, order: seq<Bytes>, d: StoreDraws, i: nat, acc: VaultState)
    requires lib.Lawful() && WellFormed(from.files) && Genuine(lib, from)
    requires Enumerates(order, from.files.Keys) && i < |order| <= MAX_INDEX_ENTRIES
    requires UnderWay(lib, i, acc) && NoCollision(lib, acc.index.hmacKey, Secrets(lib, from).Keys)
    requires Carried(lib, from, order, i, acc.index)
    requires Store(lib, acc, NameAt(lib, from, order[i]), DataAt(lib, from, order[i]), d).1.Ok?
    ensures var name, data := NameAt(lib, from, order[i]), DataAt(lib, from, order[i]);
      var t := Store(lib, acc, name, data, d).0.index; var key := KeyText(lib, acc.index, name);
      && t.hmacKey == acc.index.hmacKey && KeyForName(lib, t.hmacKey, name) == Ok(key)
      && key !in acc.index.files && key in t.files && t.files == acc.index.files[key := t.files[key]]
      && t.files[key].dataCounter == i
      && name !in Secrets(lib, acc.index) && Secrets(lib, t) == Secrets(lib, acc.index)[name := data]
  {
    hide Secrets, KeyForName, DecryptEntry, NameAt, DataAt, Store, WellFormed, SizesInWindow, CanStore, Sound, KeyText, Carried;
    var name, data := NameAt(lib, from, order[i]), DataAt(lib, from, order[i]);
    assert order[i] in order;
    assert EntryGenuine(lib, from, order[i]);
    GenuineName(lib, from, order[i]);
    StoreEffect(lib, acc, name, data, d);
    StoreMeaning(lib, acc, name, data, d);
    StoredKey(lib, acc, name, data, d);
    NewNameFree(lib, from, order, i, acc.index);
  }

  lemma WalkGrows(lib: Library, from: IndexState, order: seq<Bytes>, i: nat, name: Bytes)
    requires i < |order|
    ensures FromWalk(lib, from, order, i, name) || name == NameAt(lib, from, order[i]) ==> FromWalk(lib, from, order, i + 1, name)
  {
  }

  lemma CarriedGrows(lib: Library, from: IndexState, order: seq<Bytes>, i: nat, acc: IndexState, t: IndexState)
    requires i < |order| && Carried(lib, from, order, i, acc) && t.hmacKey == acc.hmacKey
    requires var name, data := NameAt(lib, from, order[i]), DataAt(lib, from, order[i]); var key := KeyText(lib, acc, name);
      && KeyForName(lib, t.hmacKey, name) == Ok(key)
      && key !in acc.files && key in t.files && t.files == acc.files[key := t.files[key]] && t.files[key].dataCounter == i
      && name !in Secrets(lib, acc) && Secrets(lib, t) == Secrets(lib, acc)[name := data]
    ensures Carried(lib, from, order, i + 1, t)
  {
    hide Secrets, KeyForName, DecryptEntry, NameAt, DataAt, KeyText, FromWalk;
    SameKeyText(lib, acc, t);
    var name := NameAt(lib, from, order[i]);
    assert t.files.Keys == acc.files.Keys + {KeyText(lib, acc, name)};
    forall j | 0 <= j < i + 1 ensures CarriedAt(lib, from, order, j, t) {
      if j < i {
        assert CarriedAt(lib, from, order, j, acc);
      }
    }
    forall other | other in Secrets(lib, t) ensures FromWalk(lib, from, order, i + 1, other) {
      WalkGrows(lib, from, order, i, other);
    }
  }

  lemma CarryStep(lib: Library, from: IndexState, order: seq<Bytes>, d: StoreDraws, i: nat, acc: VaultState)
    requires lib.Lawful() && WellFormed(from.files) && Genuine(lib, from)
    requires Enumerates(order, from.files.Keys) && i < |order| <= MAX_INDEX_ENTRIES
    requires UnderWay(lib, i, acc) && NoCollision(lib, acc.index.hmacKey, Secrets(lib, from).Keys)
    requires Carried(lib, from, order, i, acc.index)
    requires Store(lib, acc, NameAt(lib, from, order[i]), DataAt(lib, from, order[i]), d).1.Ok?
    ensures Carried(lib, from, order, i + 1, Store(lib, acc, NameAt(lib, from, order[i]), DataAt(lib, from, order[i]), d).0.index)
  {
    hide *;
    CarryStore(lib, from, order, d, i, acc);
    CarriedGrows(lib, from, order, i, acc.index, Store(lib, acc, NameAt(lib, from, order[i]), DataAt(lib, from, order[i]), d).0.index);
  }

  lemma SameKeyText(lib: Library, s: IndexState, t: IndexState)
    requires s.hmacKey == t.hmacKey
    ensures forall name :: KeyText(lib, s, name) == KeyText(lib, t, name)
  {
  }

  lemma GenuineName(lib: Library, s: IndexState, key: Bytes)
    requires EntryGenuine(lib, s, key)
    ensures lib.utf8(NameAt(lib, s, key))
  {
  }

  lemma {:induction false} CarryAll(lib: Library, from: IndexState, order: seq<Bytes>, d: RekeyDraws, i: nat, acc: VaultState)
    requires lib.Lawful() && WellFormed(from.files) && Genuine(lib, from)
    requires Enumerates(order, from.files.Keys) && i <= |order| <= MAX_INDEX_ENTRIES
    requires UnderWay(lib, i, acc) && NoCollision(lib, acc.index.hmacKey, Secrets(lib, from).Keys)
    requires Carried(lib, from, order, i, acc.index)
    ensures var r := ReencryptFrom(lib, from, order, d, i, acc);
      r.Ok? ==> Carried(lib, from, order, |order|, r.value.index)
    decreases |order| - i
  {
    hide Store, DecryptEntry, UnderWay, WellFormed, Genuine, Carried, NoCollision;
    if i < |order| {
      assert order[i] in order;
      ReencryptStepAt(lib, from, order, d, i, acc);
      var (next, r) := Store(lib, acc, NameAt(lib, from, order[i]), DataAt(lib, from, order[i]), d.At(i));
      if r.Ok? {
        CarryStep(lib, from, order, d.At(i), i, acc);
        CarryAll(lib, from, order, d, i + 1, next);
      }
    }
  }

  lemma ReencryptStepAt(lib: Library, from: IndexState, order: seq<Bytes>, d: RekeyDraws, i: nat, acc: VaultState)
    requires lib.Lawful() && WellFormed(from.files) && Genuine(lib, from)
    requires Enumerates(order, from.files.Keys) && i < |order| <= MAX_INDEX_ENTRIES
    requires UnderWay(lib, i, acc)
    ensures DecryptEntry(lib, from, order[i]) == Ok((NameAt(lib, from, order[i]), DataAt(lib, from, order[i])))
    ensures var (t, r) := Store(lib, acc, NameAt(lib, from, order[i]), DataAt(lib, from, order[i]), d.At(i));
      r.Ok? ==> UnderWay(lib, i + 1, t) && t.index.hmacKey == acc.index.hmacKey
  {
    assert order[i] in order;
    hide Store, DecryptEntry, UnderWay, WellFormed, Genuine;
    ReencryptStep(lib, from, order[i], d.At(i), i, acc);
  }

  // ---------------------------------------------------------------- the whole operation

  ghost predicate CounterUsed(files: Files, c: nat) {
    exists key :: key in files && files[key].dataCounter == c
  }

  /** The data counters are 0 to n-1, each used once. */
  ghost predicate CountersFresh(files: Files, n: nat) {
    && (forall key :: key in files ==> files[key].dataCounter < n)
    && (forall c: nat :: c < n ==> CounterUsed(files, c))
    && (forall a, b :: a in files && b in files && files[a].dataCounter == files[b].dataCounter ==> a == b)
  }

  lemma CarriedSecrets(lib: Library, from: IndexState, order: seq<Bytes>, t: IndexState)
    requires Genuine(lib, from) && Enumerates(order, from.files.Keys)
    requires Carried(lib, from, order, |order|, t)
    ensures Secrets(lib, t) == Secrets(lib, from)
  {
    hide Secrets, KeyForName, DecryptEntry, NameAt, DataAt;
    forall name ensures Lookup(Secrets(lib, t), name) == Lookup(Secrets(lib, from), name) {
      if name in Secrets(lib, from) {
        SecretsExact(lib, from, name);
        assert KeyText(lib, from, name) in order;
        var j :| 0 <= j < |order| && order[j] == KeyText(lib, from, name);
        assert CarriedAt(lib, from, order, j, t);
      } else if name in Secrets(lib, t) {
        assert FromWalk(lib, from, order, |order|, name);
        var j :| 0 <= j < |order| && NameAt(lib, from, order[j]) == name;
        WalkedName(lib, from, order, j);
      }
    }
    SameLookups(Secrets(lib, t), Secrets(lib, from));
  }

  lemma CarriedCounters(lib: Library, from: IndexState, order: seq<Bytes>, t: IndexState)
    requires Genuine(lib, t) && Carried(lib, from, order, |order|, t)
    ensures CountersFresh(t.files, |order|)
  {
    hide Secrets, KeyForName, DecryptEntry, NameAt, DataAt;
    forall key | key in t.files
      ensures t.files[key].dataCounter < |order|
      ensures key == KeyText(lib, t, NameAt(lib, from, order[t.files[key].dataCounter]))
    {
      EntrySecret(lib, t, key);
      assert FromWalk(lib, from, order, |order|, NameAt(lib, t, key));
      var j :| 0 <= j < |order| && NameAt(lib, from, order[j]) == NameAt(lib, t, key);
      assert CarriedAt(lib, from, order, j, t);
    }
    forall c: nat | c < |order| ensures CounterUsed(t.files, c) {
      assert CarriedAt(lib, from, order, c, t);
    }
  }

  lemma NewVaultReady(lib: Library, password: Bytes, salt: Option<Salt>, d: KeyDraws)
    ensures var r := NewVault(lib, password, salt, d);
      && (r.Err? ==> Environmental(r.error))
      && (r.Ok? ==> Sound(r.value) && KeyedBy(lib, r.value, password) && r.value.index.files == map[]
                    && r.value.index.dataNonceCounter == 0 && r.value.index.nonceCounter == 0)
  {
  }

  lemma NothingCarried(lib: Library, from: IndexState, order: seq<Bytes>, acc: IndexState)
    requires acc.files == map[]
    ensures Genuine(lib, acc) && Secrets(lib, acc) == map[] && Carried(lib, from, order, 0, acc)
  {
  }

  /** What a re-keying needs from outside the vault for each entry of the walk. */
  ghost predicate EntriesReady(lib: Library, s: VaultState, d: RekeyDraws, hmacKey: Key) {
    var order := d.walk(s.index.files.Keys);
    forall j :: 0 <= j < |order| ==> StepReady(lib, s.index, order[j], d.At(j), hmacKey)
  }

  /**
   * Re-keying a well-formed, genuine index succeeds exactly when a new empty vault can be set up and every entry
   * gets its HMAC and nonces; it fails for no other reason.
   */
  lemma RekeyExact(lib: Library, s: VaultState, password: Bytes, d: RekeyDraws)
    requires lib.Lawful() && IsWalk(d.walk) && WellFormed(s.index.files) && Genuine(lib, s.index)
    ensures var r := Rekeyed(lib, s, password, d); var empty := NewVault(lib, password, d.salt, d.keys);
      && (r.Err? ==> Environmental(r.error))
      && (r.Ok? <==> empty.Ok? && EntriesReady(lib, s, d, empty.value.index.hmacKey))
  {
    hide ReencryptFrom, Genuine, NewVault, StepReady;
    NewVaultReady(lib, password, d.salt, d.keys);
    var r := NewVault(lib, password, d.salt, d.keys);
    if r.Ok? {
      var order := d.walk(s.index.files.Keys);
      EnumerationSize(order, s.index.files.Keys);
      NothingCarried(lib, s.index, order, r.value.index);
      ReencryptAll(lib, s.index, order, d, 0, r.value);
    }
  }

  /**
   * Re-keying keeps every name and secret exactly when the names do not collide under the new HMAC key,
   * whatever order the map was walked in; no entry is then lost or merged and the counters start over.
   */
  lemma RekeyMeaning(lib: Library, s: VaultState, password: Bytes, d: RekeyDraws)
    requires lib.Lawful() && IsWalk(d.walk) && WellFormed(s.index.files) && Genuine(lib, s.index)
    requires Rekeyed(lib, s, password, d).Ok?
    ensures var t := Rekeyed(lib, s, password, d).value.index; var before := Secrets(lib, s.index);
      && t.dataNonceCounter == |s.index.files|
      && (Secrets(lib, t) == before <==> NoCollision(lib, t.hmacKey, before.Keys))
      && (NoCollision(lib, t.hmacKey, before.Keys) ==> |t.files| == |s.index.files| && CountersFresh(t.files, |t.files|))
  {
    hide ReencryptFrom, Genuine, NewVault, Sound, Carried, CountersFresh, Secrets, NoCollision, StepReady;
    NewVaultReady(lib, password, d.salt, d.keys);
    var empty := NewVault(lib, password, d.salt, d.keys).value;
    var order := d.walk(s.index.files.Keys);
    EnumerationSize(order, s.index.files.Keys);
    NothingCarried(lib, s.index, order, empty.index);
    ReencryptAll(lib, s.index, order, d, 0, empty);
    var t := Rekeyed(lib, s, password, d).value.index;
    StoredNamesDistinct(lib, t);
    if NoCollision(lib, t.hmacKey, Secrets(lib, s.index).Keys) {
      CarryAll(lib, s.index, order, d, 0, empty);
      CarriedSecrets(lib, s.index, order, t);
      CarriedCounters(lib, s.index, order, t);
      CarriedCount(lib, s.index, order, t);
    }
  }

  lemma CarriedCount(lib: Library, from: IndexState, order: seq<Bytes>, t: IndexState)
    requires Carried(lib, from, order, |order|, t)
    ensures |t.files| == |order|
  {
  }
}
