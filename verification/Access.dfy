/** `retrieve` and `remove` against the plain map of secrets. */
module Access {
  import opened Binary
  import opened Externals
  import opened HexKey
  import opened IndexCodec
  import opened Invariants
  import opened Results
  import opened VaultIndexes
  import opened VaultModel

  /** The secret that shares the key of `name`, if the key is in use. */
  lemma KeyOwner(lib: Library, s: IndexState, name: Bytes)
    requires Genuine(lib, s) && KeyForName(lib, s.hmacKey, name).Ok?
    ensures var key := KeyText(lib, s, name); var owner := NameAt(lib, s, key);
      && (name in Secrets(lib, s) <==> key in s.files && owner == name)
      && (key in s.files ==> Lookup(Secrets(lib, s), owner) == Some(DataAt(lib, s, key))
                             && KeyForName(lib, s.hmacKey, owner) == Ok(key))
      && (NoClash(lib, s, name) <==> (key in s.files ==> owner == name))
  {
  }

  /**
   * `retrieve` answers with the map's lookup exactly when no other stored name shares the HMAC;
   * it fails only if the HMAC does, and never because an entry does not open.
   */
  lemma RetrieveMeaning(lib: Library, s: VaultState, name: Bytes)
    requires Genuine(lib, s.index)
    ensures KeyForName(lib, s.index.hmacKey, name).Err? ==>
            Retrieve(lib, s, name) == Err(CryptoError(Hmac)) && name !in Secrets(lib, s.index)
    ensures KeyForName(lib, s.index.hmacKey, name).Ok? ==>
            Retrieve(lib, s, name).Ok?
            && (Retrieve(lib, s, name) == Ok(Lookup(Secrets(lib, s.index), name)) <==> NoClash(lib, s.index, name))
  {
    hide Secrets, OpenBlob, BuildEntryAad, NoClash;
    SecretsExact(lib, s.index, name);
    if KeyForName(lib, s.index.hmacKey, name).Ok? {
      KeyOwner(lib, s.index, name);
      var key := KeyText(lib, s.index, name);
      if key in s.index.files {
        assert EntryGenuine(lib, s.index, key);
        assert Retrieve(lib, s, name) == Ok(Some(DataAt(lib, s.index, key)));
      }
    }
  }

  lemma RemoveEffect(lib: Library, s: VaultState, name: Bytes)
    ensures var (t, r) := Remove(lib, s, name);
      && t.header == s.header && t.index == s.index.(files := t.index.files)
      && (r.Err? ==> r == Err(CryptoError(Hmac)) && t == s)
      && (r.Err? <==> KeyForName(lib, s.index.hmacKey, name).Err?)
      && (r.Ok? ==> t.index.files == s.index.files - {KeyText(lib, s.index, name)}
                    && r.value == (KeyText(lib, s.index, name) in s.index.files))
  {
  }

  lemma RemoveSound(lib: Library, s: VaultState, name: Bytes)
    requires SoundIndex(s.index)
    ensures SoundIndex(Remove(lib, s, name).0.index)
  {
    hide Remove, KeyText, ParseKey, SizesInWindow;
    RemoveEffect(lib, s, name);
    var (t, r) := Remove(lib, s, name);
    if r.Ok? {
      var key := KeyText(lib, s.index, name);
      assert t.index.files.Keys == s.index.files.Keys - {key};
      assert |s.index.files.Keys - {key}| <= |s.index.files.Keys|;
    }
  }

  lemma RemoveGenuine(lib: Library, s: VaultState, name: Bytes)
    requires Genuine(lib, s.index)
    ensures Genuine(lib, Remove(lib, s, name).0.index)
  {
    hide Remove, DecryptEntry, KeyForName;
    RemoveEffect(lib, s, name);
    var (t, r) := Remove(lib, s, name);
    forall key | key in t.index.files ensures EntryGenuine(lib, t.index, key) {
      assert EntryGenuine(lib, s.index, key);
      DecryptFrame(lib, s.index, t.index, key);
    }
  }

  /** What removing `name` makes of the secret called `other`. */
  ghost predicate RemovedSecret(lib: Library, s: IndexState, t: IndexState, name: Bytes, other: Bytes) {
    if KeyForName(lib, s.hmacKey, other) == KeyForName(lib, s.hmacKey, name) then other !in Secrets(lib, t)
    else Lookup(Secrets(lib, t), other) == Lookup(Secrets(lib, s), other)
  }

  lemma RemovedAt(lib: Library, s: IndexState, t: IndexState, name: Bytes, other: Bytes)
    requires Genuine(lib, s) && Genuine(lib, t) && s.encKey == t.encKey && s.hmacKey == t.hmacKey
    requires KeyForName(lib, s.hmacKey, name) == Ok(KeyText(lib, s, name))
    requires t.files == s.files - {KeyText(lib, s, name)}
    ensures RemovedSecret(lib, s, t, name, other)
  {
    hide DecryptEntry, KeyForName, Secrets;
    SecretsExact(lib, s, other);
    SecretsExact(lib, t, other);
    var key := KeyText(lib, s, other);
    if key in s.files && key in t.files {
      DecryptFrame(lib, s, t, key);
    }
  }

  /**
   * `remove` deletes the name and reports whether it was present exactly when no other stored
   * name shares the HMAC; if the HMAC fails nothing changes.
   */
  lemma RemoveMeaning(lib: Library, s: VaultState, name: Bytes)
    requires Genuine(lib, s.index)
    ensures var (t, r) := Remove(lib, s, name);
      && (r.Err? ==> t == s && r == Err(CryptoError(Hmac)) && name !in Secrets(lib, s.index))
      && (r.Ok? ==> (NoClash(lib, s.index, name) <==>
            Secrets(lib, t.index) == Secrets(lib, s.index) - {name} && r.value == (name in Secrets(lib, s.index))))
  {
    hide Remove, DecryptEntry, KeyForName, Secrets, NameAt, DataAt;
    RemoveEffect(lib, s, name);
    RemoveGenuine(lib, s, name);
    SecretsExact(lib, s.index, name);
    var (t, r) := Remove(lib, s, name);
    if r.Ok? {
      KeyOwner(lib, s.index, name);
      assert KeyForName(lib, s.index.hmacKey, name) == Ok(KeyText(lib, s.index, name));
      forall other ensures RemovedSecret(lib, s.index, t.index, name, other) {
        RemovedAt(lib, s.index, t.index, name, other);
      }
      if NoClash(lib, s.index, name) {
        forall other ensures Lookup(Secrets(lib, t.index), other) == Lookup(Secrets(lib, s.index) - {name}, other) {
          assert RemovedSecret(lib, s.index, t.index, name, other);
        }
        SameLookups(Secrets(lib, t.index), Secrets(lib, s.index) - {name});
      }
    }
  }

  lemma SameLookups(a: map<Bytes, Bytes>, b: map<Bytes, Bytes>)
    requires forall name :: Lookup(a, name) == Lookup(b, name)
    ensures a == b
  {
    assert forall name :: name in a <==> Lookup(a, name).Some?;
    assert forall name :: name in b <==> Lookup(b, name).Some?;
    forall name | name in a ensures a[name] == b[name] {
      assert Lookup(a, name) == Lookup(b, name);
    }
  }
}
