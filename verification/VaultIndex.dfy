/** The in-memory index: counters, capacity, keys and the map of entries. */
module VaultIndexes {
  import opened Binary
  import opened Constants
  import opened Externals
  import opened HexKey
  import opened IndexCodec
  import opened Results
  import opened VaultHeaders

  /** The contents of a `VaultIndex` object. */
  datatype IndexState = IndexState(
    nonce: Nonce,
    nonceCounter: u64,
    dataNonceCounter: u64,
    files: Files,
    encKey: Key,
    hmacKey: Key)

  /** What the random source and locked memory yield while an index is set up. */
  datatype KeyDraws = KeyDraws(nonce: Option<Nonce>, lockEnc: bool, lockHmac: bool)

  // ---------------------------------------------------------------- specification

  function DeriveSubkeys(lib: Library, master: Key, salt: Salt): Result<(Key, Key)> {
    var enc :- lib.hkdf(salt, master, EncryptionSubkey).OkOr(CryptoError(Hkdf));
    var hmac :- lib.hkdf(salt, master, HmacSubkey).OkOr(CryptoError(Hkdf));
    Ok((enc, hmac))
  }

  /** `hmac_key_for_name`. */
  function KeyForName(lib: Library, hmacKey: Key, name: Bytes): Result<Bytes> {
    var tag :- lib.hmac(hmacKey, name).OkOr(CryptoError(Hmac));
    Ok(Hex(tag))
  }

  function AfterAdvanceNonce(s: IndexState, draw: Option<Nonce>): (IndexState, Result<()>) {
    if s.nonceCounter == U64_MAX then (s, Err(CryptoError(CounterOverflow)))
    else
      var counted := s.(nonceCounter := s.nonceCounter + 1);
      if draw.None? then (counted, Err(CryptoError(Random)))
      else (counted.(nonce := draw.value), Ok(()))
  }

  function AfterNextDataCounter(s: IndexState): (IndexState, Result<u64>) {
    if s.dataNonceCounter == U64_MAX then (s, Err(CryptoError(CounterOverflow)))
    else (s.(dataNonceCounter := s.dataNonceCounter + 1), Ok(s.dataNonceCounter))
  }

  function AfterInsert(s: IndexState, key: Bytes, entry: IndexEntry): (IndexState, Result<()>) {
    if key in s.files || |s.files| < MAX_INDEX_ENTRIES then (s.(files := s.files[key := entry]), Ok(()))
    else (s, Err(InvalidInput(IndexFull)))
  }

  function AfterRemove(s: IndexState, key: Bytes): (IndexState, Option<IndexEntry>) {
    if key in s.files then (s.(files := s.files - {key}), Some(s.files[key])) else (s, None)
  }

  /** The counter is past the counter of every stored entry. */
  predicate CounterAhead(dataNonceCounter: u64, files: Files) {
    forall k :: k in files ==> files[k].dataCounter < dataNonceCounter
  }

  function EmptyIndex(lib: Library, master: Key, salt: Salt, d: KeyDraws): Result<IndexState> {
    var (enc, hmac) :- DeriveSubkeys(lib, master, salt);
    var nonce :- d.nonce.OkOr(CryptoError(Random));
    var _ :- Guard(d.lockEnc && d.lockHmac, CryptoError(LockedMemory));
    Ok(IndexState(nonce, 0, 0, map[], enc, hmac))
  }

  function RestoredIndex(enc: Key, hmac: Key, nonce: Nonce, data: IndexData, lockEnc: bool, lockHmac: bool): Result<IndexState> {
    var _ :- Guard(CounterAhead(data.dataNonceCounter, data.files), CorruptedData);
    var _ :- Guard(lockEnc && lockHmac, CryptoError(LockedMemory));
    Ok(IndexState(nonce, data.nonceCounter, data.dataNonceCounter, data.files, enc, hmac))
  }

  // ---------------------------------------------------------------- the object

  class VaultIndex {
    var nonce: Nonce
    var nonceCounter: u64
    var dataNonceCounter: u64
    var files: Files
    const encKey: Key
    const hmacKey: Key

    function View(): IndexState
      reads this
    {
      IndexState(nonce, nonceCounter, dataNonceCounter, files, encKey, hmacKey)
    }

    constructor (s: IndexState)
      ensures View() == s
    {
      nonce := s.nonce;
      nonceCounter := s.nonceCounter;
      dataNonceCounter := s.dataNonceCounter;
      files := s.files;
      encKey := s.encKey;
      hmacKey := s.hmacKey;
    }

    static method FromMasterKey(lib: Library, master: Key, salt: Salt, d: KeyDraws) returns (r: Result<VaultIndex>)
      ensures r.Ok? ==> fresh(r.value) && EmptyIndex(lib, master, salt, d) == Ok(r.value.View())
      ensures r.Err? ==> EmptyIndex(lib, master, salt, d) == Err(r.error)
    {
      var keys :- DeriveSubkeys(lib, master, salt);
      var nonce :- d.nonce.OkOr(CryptoError(Random));
      if !d.lockEnc || !d.lockHmac {
        return Err(CryptoError(LockedMemory));
      }
      var index := new VaultIndex(IndexState(nonce, 0, 0, map[], keys.0, keys.1));
      r := Ok(index);
    }

    /** The largest counter among the entries that `order` visits. */
    static method MaxCounter(files: Files, order: seq<Bytes>) returns (max: Option<u64>)
      requires forall k :: k in order <==> k in files
      ensures max.None? <==> files == map[]
      ensures max.Some? ==> (exists k :: k in files && files[k].dataCounter == max.value)
      ensures max.Some? ==> forall k :: k in files ==> files[k].dataCounter <= max.value
    {
      max := None;
      for i := 0 to |order|
        invariant max.None? <==> i == 0
        invariant max.Some? ==> exists k :: k in files && files[k].dataCounter == max.value
        invariant max.Some? ==> forall j :: 0 <= j < i ==> order[j] in files && files[order[j]].dataCounter <= max.value
      {
        assert order[i] in order;
        var counter := files[order[i]].dataCounter;
        if max.None? || max.value < counter {
          max := Some(counter);
        }
      }
      if order != [] {
        assert order[0] in order;
      } else {
        assert forall k :: k !in files;
      }
    }

    static method FromSubkeysAndData(enc: Key, hmac: Key, nonce: Nonce, data: IndexData, order: seq<Bytes>,
                                     lockEnc: bool, lockHmac: bool) returns (r: Result<VaultIndex>)
      requires forall k :: k in order <==> k in data.files
      ensures r.Ok? ==> fresh(r.value) && RestoredIndex(enc, hmac, nonce, data, lockEnc, lockHmac) == Ok(r.value.View())
      ensures r.Err? ==> RestoredIndex(enc, hmac, nonce, data, lockEnc, lockHmac) == Err(r.error)
    {
      var max := MaxCounter(data.files, order);
      if max.Some? && data.dataNonceCounter <= max.value {
        return Err(CorruptedData);
      }
      if !lockEnc || !lockHmac {
        return Err(CryptoError(LockedMemory));
      }
      var index := new VaultIndex(IndexState(nonce, data.nonceCounter, data.dataNonceCounter, data.files, enc, hmac));
      r := Ok(index);
    }

    method AdvanceNonce(draw: Option<Nonce>) returns (r: Result<()>)
      modifies this
      ensures (View(), r) == AfterAdvanceNonce(old(View()), draw)
    {
      if nonceCounter == U64_MAX {
        return Err(CryptoError(CounterOverflow));
      }
      nonceCounter := nonceCounter + 1;
      var newNonce :- draw.OkOr(CryptoError(Random));
      nonce := newNonce;
      r := Ok(());
    }

    method NextDataNonceCounter() returns (r: Result<u64>)
      modifies this
      ensures (View(), r) == AfterNextDataCounter(old(View()))
    {
      var counter := dataNonceCounter;
      if counter == U64_MAX {
        return Err(CryptoError(CounterOverflow));
      }
      dataNonceCounter := counter + 1;
      r := Ok(counter);
    }

    method HmacKeyForName(lib: Library, name: Bytes) returns (r: Result<Bytes>)
      ensures r == KeyForName(lib, hmacKey, name)
      ensures lib.hmac(hmacKey, name).None? ==> r == Err(CryptoError(Hmac))
      ensures lib.hmac(hmacKey, name).Some? ==> r == Ok(Hex(lib.hmac(hmacKey, name).value))
    {
      var tag :- lib.hmac(hmacKey, name).OkOr(CryptoError(Hmac));
      var hex := KeyToHex(tag);
      r := Ok(hex);
    }

    method InsertByKey(key: Bytes, entry: IndexEntry) returns (r: Result<()>)
      modifies this
      ensures (View(), r) == AfterInsert(old(View()), key, entry)
    {
      if key in files {
        files := files[key := entry];
        return Ok(());
      }
      if |files| >= MAX_INDEX_ENTRIES {
        return Err(InvalidInput(IndexFull));
      }
      files := files[key := entry];
      r := Ok(());
    }

    method LookupByKey(key: Bytes) returns (r: Option<IndexEntry>)
      ensures r == if key in files then Some(files[key]) else None
    {
      if key in files { r := Some(files[key]); } else { r := None; }
    }

    method RemoveByKey(key: Bytes) returns (r: Option<IndexEntry>)
      modifies this
      ensures (View(), r) == AfterRemove(old(View()), key)
    {
      if key !in files {
        return None;
      }
      r := Some(files[key]);
      files := files - {key};
    }
  }
}
