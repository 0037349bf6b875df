/** The vault object. Each method computes what VaultModel says of the vault's contents. */
module Vaults {
  import opened Binary
  import opened Concrete
  import opened Constants
  import opened Envelopes
  import opened Externals
  import opened HexKey
  import opened IndexCodec
  import opened LegacyIndexes
  import opened Results
  import opened VaultHeaders
  import opened VaultIndexes
  import opened VaultModel

  class Vault {
    var header: VaultHeader
    var index: VaultIndex

    function View(): VaultState
      reads this, index
    {
      VaultState(header, index.View())
    }

    constructor (h: VaultHeader, i: VaultIndex)
      ensures header == h && index == i
    {
      header := h;
      index := i;
    }

    /** Header, keys and empty index, as both `create` and `rekey` set them up. */
    static method Empty(lib: Library, password: Bytes, salt: Option<Salt>, d: KeyDraws) returns (r: Result<Vault>)
      ensures r.Ok? ==> fresh(r.value) && fresh(r.value.index) && NewVault(lib, password, salt, d) == Ok(r.value.View())
      ensures r.Err? ==> NewVault(lib, password, salt, d) == Err(r.error)
    {
      var drawn :- salt.OkOr(CryptoError(Random));
      var header := DefaultHeader(drawn);
      var master :- DeriveMasterKey(lib, password, header);
      var index :- VaultIndex.FromMasterKey(lib, master, header.kdfSalt, d);
      var vault := new Vault(header, index);
      r := Ok(vault);
    }

    static method Create(lib: Library, password: Bytes, salt: Option<Salt>, d: KeyDraws) returns (r: Result<Vault>)
      ensures r.Ok? ==> fresh(r.value) && fresh(r.value.index) && VaultModel.Create(lib, password, salt, d) == Ok(r.value.View())
      ensures r.Err? ==> VaultModel.Create(lib, password, salt, d) == Err(r.error)
      ensures r.Ok? ==> salt.Some? && SetUp(lib, password, salt.value, d, r.value.View())
      ensures |password| < 8 <==> r.Err? && r.error == InvalidInput(PasswordTooShort)
    {
      hide SetUp, NewVault;
      CreateRefused(lib, password, salt, d);
      if |password| < MIN_PASSWORD_LEN {
        return Err(InvalidInput(PasswordTooShort));
      }
      r := Empty(lib, password, salt, d);
      if r.Ok? {
        CreateConcrete(lib, password, salt, d, r.value.View());
      }
    }

    static method Open(lib: Library, password: Bytes, data: Bytes, d: OpenDraws) returns (r: Result<Vault>)
      requires IsWalk(d.rekey.walk)
      ensures r.Ok? ==> fresh(r.value) && fresh(r.value.index) && VaultModel.Open(lib, password, data, d) == Ok(r.value.View())
      ensures r.Err? ==> VaultModel.Open(lib, password, data, d) == Err(r.error)
    {
      hide ParseEnvelope, Decode, DecodeLegacy, Rekeyed, DeriveMasterKey;
      var envelope :- ParseEnvelope(lib, data);
      var header := envelope.header;
      var master :- DeriveMasterKey(lib, password, header);
      var keys :- DeriveSubkeys(lib, master, header.kdfSalt);
      var plain := lib.Open(keys.0, envelope.nonce, envelope.encryptedIndex, PrintHeader(header));
      if plain.Err? {
        return Err(InvalidPassword);
      }
      var contents: IndexData;
      if header.version == LEGACY_VAULT_VERSION_1 {
        var parsed := lib.parseIndexV1(plain.value);
        contents :- DecodeIndexV1(parsed, if parsed.Some? then d.rekey.walk(parsed.value.files.Keys) else []);
      } else {
        var decoded, _, _ := DecodeIndex(plain.value);
        contents :- decoded;
      }
      var order := d.rekey.walk(contents.files.Keys);
      var index :- VaultIndex.FromSubkeysAndData(keys.0, keys.1, envelope.nonce, contents, order, d.lockEnc, d.lockHmac);
      var vault := new Vault(header, index);
      assert OpenStored(lib, password, data, d) == Ok(vault.View());
      if vault.header.version == LEGACY_VAULT_VERSION_1 {
        var _ :- vault.Rekey(lib, password, d.rekey);
      }
      r := Ok(vault);
    }

    method Store(lib: Library, name: Bytes, plaintext: Bytes, d: StoreDraws) returns (r: Result<()>)
      modifies index
      ensures (View(), r) == VaultModel.Store(lib, old(View()), name, plaintext, d)
      ensures lib.Lawful() && r.Ok? ==>
        && lib.hmac(index.hmacKey, name).Some?
        && var key := Hex(lib.hmac(index.hmacKey, name).value);
           key in index.files && SealedUnder(lib, index.encKey, key, name, plaintext, d, index.files[key])
    {
      hide SealedUnder, Hex;
      if lib.Lawful() {
        StoreConcrete(lib, View(), name, plaintext, d);
      }
      if |name| > MAX_ENTRY_NAME_LEN {
        return Err(InvalidInput(NameTooLong));
      }
      if |plaintext| > MAX_ENTRY_DATA_SIZE {
        return Err(InvalidInput(DataTooLarge));
      }
      var key :- index.HmacKeyForName(lib, name);
      var dataCounter :- index.NextDataNonceCounter();
      var dataNonce :- d.dataNonce.OkOr(CryptoError(Random));
      var nameNonce :- d.nameNonce.OkOr(CryptoError(Random));
      var aad := BuildEntryAad(key, dataCounter);
      var sealedData :- lib.Seal(index.encKey, dataNonce, plaintext, aad);
      var sealedName :- lib.Seal(index.encKey, nameNonce, name, aad);
      var entry := IndexEntry(dataCounter, nameNonce + sealedName, dataNonce + sealedData);
      r := index.InsertByKey(key, entry);
    }

    method Retrieve(lib: Library, name: Bytes) returns (r: Result<Option<Bytes>>)
      ensures r == VaultModel.Retrieve(lib, View(), name)
      ensures lib.hmac(index.hmacKey, name).None? <==> r == Err(CryptoError(Hmac))
      ensures r == Ok(None) <==> lib.hmac(index.hmacKey, name).Some? && Hex(lib.hmac(index.hmacKey, name).value) !in index.files
    {
      RetrieveConcrete(lib, View(), name);
      var key :- index.HmacKeyForName(lib, name);
      var entry := index.LookupByKey(key);
      if entry.None? {
        return Ok(None);
      }
      var plaintext :- OpenBlob(lib, index.encKey, entry.value.encryptedData, BuildEntryAad(key, entry.value.dataCounter));
      r := Ok(Some(plaintext));
    }

    method Remove(lib: Library, name: Bytes) returns (r: Result<bool>)
      modifies index
      ensures (View(), r) == VaultModel.Remove(lib, old(View()), name)
    {
      var key :- index.HmacKeyForName(lib, name);
      var entry := index.RemoveByKey(key);
      r := Ok(entry.Some?);
    }

    method Export(lib: Library, draw: Option<Nonce>, walk: Walk) returns (r: Result<Bytes>)
      requires IsWalk(walk)
      modifies index
      ensures (View(), r) == VaultModel.Export(lib, old(View()), draw, walk)
    {
      hide Encode, PrintHeader;
      var _ :- index.AdvanceNonce(draw);
      var headerJson := PrintHeader(header);
      var indexBytes :- EncodeIndex(Contents(index.View()), walk(index.files.Keys));
      var encryptedIndex :- lib.Seal(index.encKey, index.nonce, indexBytes, headerJson);
      var output := Le(|headerJson|, 4);
      output := output + headerJson;
      output := output + index.nonce;
      output := output + encryptedIndex;
      if |output| > MAX_VAULT_FILE_SIZE {
        return Err(SerializationError);
      }
      r := Ok(output);
    }

    method ChangePassword(lib: Library, current: Bytes, newPassword: Bytes, d: RekeyDraws) returns (r: Result<()>)
      requires IsWalk(d.walk)
      modifies this
      ensures index == old(index) || fresh(index)
      ensures (View(), r) == VaultModel.ChangePassword(lib, old(View()), current, newPassword, d)
      ensures r == Err(InvalidPassword) <==>
        |newPassword| >= 8 && exists enc, hmac :: PasswordKeys(lib, current, old(header), enc, hmac) && enc != old(index.encKey)
    {
      hide PasswordKeys;
      ChangePasswordConcrete(lib, View(), current, newPassword, d);
      if |newPassword| < MIN_PASSWORD_LEN {
        return Err(InvalidInput(PasswordTooShort));
      }
      var _ :- VerifyPassword(lib, View(), current);
      r := Rekey(lib, newPassword, d);
    }

    /** Builds the new vault beside the old one and swaps it in only once every entry has been stored. */
    method Rekey(lib: Library, password: Bytes, d: RekeyDraws) returns (r: Result<()>)
      requires IsWalk(d.walk)
      modifies this
      ensures index == old(index) || fresh(index)
      ensures r.Err? ==> View() == old(View()) && index == old(index)
      ensures (View(), r) == VaultModel.Rekey(lib, old(View()), password, d)
    {
      hide VaultModel.Store, NewVault, OpenBlob, BuildEntryAad;
      var newVault :- Empty(lib, password, d.salt, d.keys);
      ghost var empty := newVault.View();
      var order := d.walk(index.files.Keys);
      assert forall i :: 0 <= i < |order| ==> order[i] in order;
      for i := 0 to |order|
        invariant fresh(newVault) && fresh(newVault.index)
        invariant View() == old(View()) && index == old(index)
        invariant ReencryptFrom(lib, index.View(), order, d, 0, empty) ==
                  ReencryptFrom(lib, index.View(), order, d, i, newVault.View())
      {
        var entry := index.files[order[i]];
        var aad := BuildEntryAad(order[i], entry.dataCounter);
        var name :- OpenBlob(lib, index.encKey, entry.encryptedName, aad);
        if !lib.utf8(name) {
          return Err(CorruptedData);
        }
        var plaintext :- OpenBlob(lib, index.encKey, entry.encryptedData, aad);
        var _ :- newVault.Store(lib, name, plaintext, d.At(i));
      }
      header := newVault.header;
      index := newVault.index;
      r := Ok(());
    }
  }
}
