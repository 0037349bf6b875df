/** Format version 1: the index once its JSON has been parsed, and its conversion. */
module LegacyIndexes {
  import opened Binary
  import opened Constants
  import opened Enumerations
  import opened HexKey
  import opened IndexCodec
  import opened Results

  datatype LegacyEntry = LegacyEntry(
    isDummy: bool, encryptedData: Option<Bytes>, encryptedName: Option<Bytes>, dataCounter: u64)

  datatype LegacyIndex = LegacyIndex(
    version: u16, nonceCounter: u64, dataNonceCounter: u64, files: map<Bytes, LegacyEntry>)

  /** A real entry that carries both ciphertexts, within bounds, under a 32-byte hex key. */
  predicate Convertible(key: Bytes, e: LegacyEntry) {
    && ParseKey(key).Some?
    && e.encryptedName.Some? && e.encryptedData.Some?
    && SizesInWindow(IndexEntry(e.dataCounter, e.encryptedName.value, e.encryptedData.value))
  }

  /** The entries that conversion must keep: all but the padding. */
  function RealKeys(files: map<Bytes, LegacyEntry>): set<Bytes> {
    set k | k in files && !files[k].isDummy
  }

  function Converted(e: LegacyEntry): IndexEntry
    requires e.encryptedName.Some? && e.encryptedData.Some?
  {
    IndexEntry(e.dataCounter, e.encryptedName.value, e.encryptedData.value)
  }

  /** What `decode_index_v1` computes from the parsed document, `None` when the JSON is malformed. */
  function DecodeLegacy(parsed: Option<LegacyIndex>): Result<IndexData> {
    if parsed.None? || parsed.value.version != LEGACY_INDEX_VERSION_1 || |parsed.value.files| > MAX_INDEX_ENTRIES then
      Err(CorruptedData)
    else
      var files := parsed.value.files;
      if forall k :: k in RealKeys(files) ==> Convertible(k, files[k]) then
        Ok(IndexData(parsed.value.nonceCounter, parsed.value.dataNonceCounter,
                     map k | k in RealKeys(files) :: Converted(files[k])))
      else Err(CorruptedData)
  }

  /** A real entry of the document and an entry of the vault hold the same blobs and counter. */
  predicate Carries(e: LegacyEntry, entry: IndexEntry) {
    && !e.isDummy && e.encryptedName == Some(entry.encryptedName)
    && e.encryptedData == Some(entry.encryptedData) && e.dataCounter == entry.dataCounter
  }

  lemma SubsetSize<T>(a: set<T>, b: set<T>)
    requires a <= b
    ensures |a| <= |b|
  {
    assert b == a + (b - a);
  }

  /** An accepted version 1 index satisfies what the current decoder guarantees, and keeps exactly the real entries. */
  lemma LegacyWellFormed(parsed: Option<LegacyIndex>)
    requires DecodeLegacy(parsed).Ok?
    ensures var d := DecodeLegacy(parsed).value;
      && WellFormed(d.files)
      && d.files.Keys == RealKeys(parsed.value.files)
      && forall k :: k in d.files ==> Carries(parsed.value.files[k], d.files[k])
  {
    var d := DecodeLegacy(parsed).value;
    assert d.files.Keys == RealKeys(parsed.value.files);
    SubsetSize(d.files.Keys, parsed.value.files.Keys);
    assert |d.files| == |d.files.Keys| && |parsed.value.files| == |parsed.value.files.Keys|;
  }

  /** A version 1 index survives being written in version 2 and read back. */
  lemma LegacyReencodes(parsed: Option<LegacyIndex>, order: seq<Bytes>)
    requires DecodeLegacy(parsed).Ok?
    requires Enumerates(order, RealKeys(parsed.value.files))
    ensures Encode(DecodeLegacy(parsed).value, order).Ok?
    ensures Decode(Encode(DecodeLegacy(parsed).value, order).value) == DecodeLegacy(parsed)
  {
    LegacyWellFormed(parsed);
    DecodeEncode(DecodeLegacy(parsed).value, order);
  }

  /** A real entry of a version 1 document: a key of 64 digits 0-9 and a-f, and both blobs within bounds. */
  predicate RealEntry(key: Bytes, e: LegacyEntry) {
    && |key| == 64 && (forall i :: 0 <= i < |key| ==> 48 <= key[i] <= 57 || 97 <= key[i] <= 102)
    && e.encryptedName.Some? && 40 <= |e.encryptedName.value| <= 295
    && e.encryptedData.Some? && 40 <= |e.encryptedData.value| <= 67108904
  }

  /** A version 1 document: at most 1024 entries, padding included, and every entry that is not padding is a real one. */
  predicate Document(parsed: Option<LegacyIndex>) {
    && parsed.Some? && parsed.value.version == 1 && |parsed.value.files| <= 1024
    && forall key :: key in parsed.value.files && !parsed.value.files[key].isDummy ==> RealEntry(key, parsed.value.files[key])
  }

  /** The content of a document: its counters, and its entries without the padding. */
  ghost predicate ContentOf(document: LegacyIndex, d: IndexData) {
    && d.nonceCounter == document.nonceCounter && d.dataNonceCounter == document.dataNonceCounter
    && (forall key :: key in d.files <==> key in document.files && !document.files[key].isDummy)
    && forall key :: key in d.files ==>
         var e := document.files[key];
         && e.encryptedName == Some(d.files[key].encryptedName) && e.encryptedData == Some(d.files[key].encryptedData)
         && e.dataCounter == d.files[key].dataCounter
  }

  /** A version 1 index is accepted exactly when it is such a document, whatever padding it holds, and gives its content. */
  lemma LegacyExact(parsed: Option<LegacyIndex>)
    ensures DecodeLegacy(parsed).Ok? <==> Document(parsed)
    ensures DecodeLegacy(parsed).Ok? ==> ContentOf(parsed.value, DecodeLegacy(parsed).value)
    ensures DecodeLegacy(parsed).Err? ==> DecodeLegacy(parsed) == Err(CorruptedData)
  {
    hide Unhex;
    if parsed.Some? {
      forall key | key in parsed.value.files
        ensures Convertible(key, parsed.value.files[key]) <==> RealEntry(key, parsed.value.files[key])
      {
        if |key| == 64 {
          UnhexAccepts(key);
        }
      }
    }
    if DecodeLegacy(parsed).Ok? {
      LegacyWellFormed(parsed);
    }
  }

  lemma SameContent(document: LegacyIndex, d: IndexData, e: IndexData)
    requires ContentOf(document, e)
    ensures ContentOf(document, d) <==> d == e
  {
    if ContentOf(document, d) {
      assert d.files.Keys == e.files.Keys;
      assert d.files == e.files;
    }
  }

  method DecodeIndexV1(parsed: Option<LegacyIndex>, order: seq<Bytes>) returns (res: Result<IndexData>)
    requires parsed.Some? ==> Enumerates(order, parsed.value.files.Keys)
    ensures res == DecodeLegacy(parsed)
    ensures res.Ok? <==> Document(parsed)
    ensures res.Ok? ==> ContentOf(parsed.value, res.value)
  {
    hide ParseKey, SizesInWindow, Document, ContentOf, HexDigit, Unhex;
    LegacyExact(parsed);
    if parsed.None? || parsed.value.version != LEGACY_INDEX_VERSION_1 {
      return Err(CorruptedData);
    }
    var index := parsed.value;
    if |index.files| > MAX_INDEX_ENTRIES {
      return Err(CorruptedData);
    }
    var files: Files := map[];
    assert forall i :: 0 <= i < |order| ==> order[i] in order;
    for i := 0 to |order|
      invariant forall k :: k in files <==> k in order[..i] && k in RealKeys(index.files)
      invariant forall k :: k in files ==> Convertible(k, index.files[k]) && files[k] == Converted(index.files[k])
    {
      var key := order[i];
      var meta := index.files[key];
      assert order[..i + 1] == order[..i] + [key];
      if meta.isDummy {
        continue;
      }
      assert key in RealKeys(index.files);
      var raw := HexToKey(key);
      if raw.None? || meta.encryptedName.None? || meta.encryptedData.None? {
        return Err(CorruptedData);
      }
      var entry := IndexEntry(meta.dataCounter, meta.encryptedName.value, meta.encryptedData.value);
      if !SizesInWindow(entry) {
        return Err(CorruptedData);
      }
      files := files[key := entry];
    }
    assert order[..|order|] == order;
    assert files == map k | k in RealKeys(index.files) :: Converted(index.files[k]);
    res := Ok(IndexData(index.nonceCounter, index.dataNonceCounter, files));
  }
}
