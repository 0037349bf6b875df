/** The binary index: layout, encoder, bounds-checked reader and decoder. */
module IndexCodec {
  import opened Binary
  import opened Constants
  import opened Enumerations
  import opened HexKey
  import opened Results

  const MIN_ENCRYPTED_LEN := NONCE_LEN + TAG_LEN
  const MAX_ENCRYPTED_DATA_LEN := NONCE_LEN + MAX_ENTRY_DATA_SIZE + TAG_LEN
  const MAX_ENCRYPTED_NAME_LEN := NONCE_LEN + MAX_ENTRY_NAME_LEN + TAG_LEN
  const INDEX_PREAMBLE_LEN := 2 + 8 + 8 + 4
  const ENTRY_FIXED_LEN := ENTRY_KEY_LEN + 8 + 4 + 4
  const MIN_ENTRY_LEN := ENTRY_FIXED_LEN + 2 * MIN_ENCRYPTED_LEN

  datatype IndexEntry = IndexEntry(dataCounter: u64, encryptedName: Bytes, encryptedData: Bytes)

  type Files = map<Bytes, IndexEntry>

  datatype IndexData = IndexData(nonceCounter: u64, dataNonceCounter: u64, files: Files)

  /** An entry as the file holds it: its key is raw, not hex. */
  datatype RawEntry = RawEntry(key: Bytes, entry: IndexEntry)

  /** `check_entry_sizes`: both blobs have a length `store` can produce. */
  predicate SizesInWindow(e: IndexEntry) {
    && MIN_ENCRYPTED_LEN <= |e.encryptedName| <= MAX_ENCRYPTED_NAME_LEN
    && MIN_ENCRYPTED_LEN <= |e.encryptedData| <= MAX_ENCRYPTED_DATA_LEN
  }

  predicate RawOk(e: RawEntry) {
    |e.key| == ENTRY_KEY_LEN && SizesInWindow(e.entry)
  }

  // ---------------------------------------------------------------- layout

  /** A blob behind its length. */
  function EncodeBlob(blob: Bytes): Bytes {
    Le(|blob|, 4) + blob
  }

  function EncodeEntry(e: RawEntry): Bytes {
    e.key + Le(e.entry.dataCounter, 8) + EncodeBlob(e.entry.encryptedName) + EncodeBlob(e.entry.encryptedData)
  }

  function EncodeEntries(es: seq<RawEntry>): Bytes {
    if es == [] then [] else EncodeEntry(es[0]) + EncodeEntries(es[1..])
  }

  function Preamble(nonceCounter: u64, dataNonceCounter: u64, count: nat): (b: Bytes)
    ensures |b| == INDEX_PREAMBLE_LEN
  {
    Le(VAULT_INDEX_VERSION, 2) + Le(nonceCounter, 8) + Le(dataNonceCounter, 8) + Le(count, 4)
  }

  function RawEncode(nonceCounter: u64, dataNonceCounter: u64, es: seq<RawEntry>): Bytes {
    Preamble(nonceCounter, dataNonceCounter, |es|) + EncodeEntries(es)
  }

  predicate DistinctKeys(es: seq<RawEntry>) {
    forall i, j :: 0 <= i < j < |es| ==> es[i].key != es[j].key
  }

  predicate AllRawOk(es: seq<RawEntry>) {
    forall i :: 0 <= i < |es| ==> RawOk(es[i])
  }

  /** The lists of entries that the format admits. */
  predicate Grammar(es: seq<RawEntry>) {
    |es| <= MAX_INDEX_ENTRIES && AllRawOk(es) && DistinctKeys(es)
  }

  /** The map built by inserting the entries in order. */
  function FilesOf(es: seq<RawEntry>): Files {
    if es == [] then map[]
    else
      var last := es[|es| - 1];
      FilesOf(es[..|es| - 1])[Hex(last.key) := last.entry]
  }

  // ---------------------------------------------------------------- parsing, as functions

  /** A blob of at least 40 and at most `max` bytes at the front of `b`, and what follows it. */
  function ParseBlob(b: Bytes, max: nat): Option<(Bytes, Bytes)> {
    if |b| < 4 then None
    else
      var len := FromLe(b[..4]);
      if !(MIN_ENCRYPTED_LEN <= len <= max) || |b| < 4 + len then None
      else Some((b[4..4 + len], b[4 + len..]))
  }

  /** One entry at the front of `b`, and what follows it. */
  function ParseEntry(b: Bytes): Option<(RawEntry, Bytes)> {
    if |b| < 40 then None
    else
      FromLeU64(b[32..40]);
      var (name, b1) :- ParseBlob(b[40..], MAX_ENCRYPTED_NAME_LEN);
      var (data, b2) :- ParseBlob(b1, MAX_ENCRYPTED_DATA_LEN);
      Some((RawEntry(b[..32], IndexEntry(FromLe(b[32..40]), name, data)), b2))
  }

  function ParseEntries(n: nat, b: Bytes): Option<(seq<RawEntry>, Bytes)> {
    if n == 0 then Some(([], b))
    else
      var (e, b1) :- ParseEntry(b);
      var (es, b2) :- ParseEntries(n - 1, b1);
      Some(([e] + es, b2))
  }

  /** The entry count an input declares. */
  function DeclaredCount(b: Bytes): nat
    requires |b| >= INDEX_PREAMBLE_LEN
  {
    FromLe(b[18..22])
  }

  /**
   * Whether decoding gets as far as the entries. `early` says whether the entry count is compared
   * with the bytes that remain before any entry is read, as the source does.
   */
  predicate Admitted(b: Bytes, early: bool) {
    && |b| >= INDEX_PREAMBLE_LEN && FromLe(b[..2]) == VAULT_INDEX_VERSION
    && DeclaredCount(b) <= MAX_INDEX_ENTRIES
    && (early ==> DeclaredCount(b) * MIN_ENTRY_LEN <= |b| - INDEX_PREAMBLE_LEN)
  }

  /** What `decode_index` computes, with or without the early count check. */
  function Decode(b: Bytes, early: bool := true): Result<IndexData> {
    if !Admitted(b, early) then Err(CorruptedData)
    else
      match ParseEntries(DeclaredCount(b), b[22..])
      case None => Err(CorruptedData)
      case Some((es, rest)) =>
        FromLeU64(b[2..10]);
        FromLeU64(b[10..18]);
        if DistinctKeys(es) && rest == [] then Ok(IndexData(FromLe(b[2..10]), FromLe(b[10..18]), FilesOf(es)))
        else Err(CorruptedData)
  }

  /** The map capacity that decoding reserves before it reads an entry. */
  function Reserved(b: Bytes, early: bool): nat {
    if Admitted(b, early) then DeclaredCount(b) else 0
  }

  /** The bytes one pass of the loop copies out of the input, also when it fails half-way. */
  function EntryCopies(b: Bytes): nat {
    if |b| < 40 then 0
    else
      match ParseBlob(b[40..], MAX_ENCRYPTED_NAME_LEN)
      case None => 0
      case Some((name, b1)) =>
        |name| + match ParseBlob(b1, MAX_ENCRYPTED_DATA_LEN) case None => 0 case Some((data, _)) => |data|
  }

  /** The bytes the loop copies until it ends, fails, or meets a key it has seen. */
  function Copies(n: nat, b: Bytes, seen: set<Bytes>): nat {
    if n == 0 then 0
    else
      EntryCopies(b) +
      match ParseEntry(b)
      case None => 0
      case Some((e, rest)) => if e.key in seen then 0 else Copies(n - 1, rest, seen + {e.key})
  }

  /** The bytes that decoding copies, whether it accepts or rejects. */
  function Copied(b: Bytes): nat {
    if Admitted(b, true) then Copies(DeclaredCount(b), b[22..], {}) else 0
  }

  /** The entries of an accepted input, in the order they were read. */
  function EntriesRead(b: Bytes): seq<RawEntry> {
    if |b| < INDEX_PREAMBLE_LEN then []
    else
      match ParseEntries(DeclaredCount(b), b[22..])
      case None => []
      case Some((es, _)) => es
  }

  // ---------------------------------------------------------------- exactness

  lemma BlobExact(b: Bytes, max: nat, blob: Bytes, rest: Bytes)
    requires max < 0x1_0000_0000
    ensures ParseBlob(b, max) == Some((blob, rest)) <==>
            MIN_ENCRYPTED_LEN <= |blob| <= max && b == EncodeBlob(blob) + rest
  {
    hide Le, FromLe;
    if MIN_ENCRYPTED_LEN <= |blob| <= max && b == EncodeBlob(blob) + rest {
      assert b[..4] == Le(|blob|, 4);
      DecodeLeU32(|blob|);
      assert b[4..4 + |blob|] == blob;
      assert b[4 + |blob|..] == rest;
    }
    if ParseBlob(b, max) == Some((blob, rest)) {
      EncodeLe(b[..4]);
      JoinSlices(b, 4, 4 + |blob|);
      assert b == b[..4 + |blob|] + rest;
    }
  }

  lemma ParseEncoded(e: RawEntry, rest: Bytes)
    requires RawOk(e)
    ensures ParseEntry(EncodeEntry(e) + rest) == Some((e, rest))
  {
    hide Le, FromLe, ParseBlob;
    var b := EncodeEntry(e) + rest;
    var data := EncodeBlob(e.entry.encryptedData) + rest;
    assert b[..32] == e.key;
    assert b[32..40] == Le(e.entry.dataCounter, 8);
    DecodeLeU64(e.entry.dataCounter);
    assert b[40..] == EncodeBlob(e.entry.encryptedName) + data;
    BlobExact(b[40..], MAX_ENCRYPTED_NAME_LEN, e.entry.encryptedName, data);
    BlobExact(data, MAX_ENCRYPTED_DATA_LEN, e.entry.encryptedData, rest);
  }

  lemma ParseSound(b: Bytes)
    requires ParseEntry(b).Some?
    ensures RawOk(ParseEntry(b).value.0)
    ensures b == EncodeEntry(ParseEntry(b).value.0) + ParseEntry(b).value.1
  {
    hide Le, FromLe, ParseBlob;
    var (e, rest) := ParseEntry(b).value;
    var (name, b1) := ParseBlob(b[40..], MAX_ENCRYPTED_NAME_LEN).value;
    var (data, b2) := ParseBlob(b1, MAX_ENCRYPTED_DATA_LEN).value;
    BlobExact(b[40..], MAX_ENCRYPTED_NAME_LEN, name, b1);
    BlobExact(b1, MAX_ENCRYPTED_DATA_LEN, data, rest);
    EncodeLe(b[32..40]);
    JoinSlices(b, 32, 40);
    assert b == b[..40] + b[40..];
    assert b[..40] + (EncodeBlob(name) + (EncodeBlob(e.entry.encryptedData) + rest))
        == b[..40] + EncodeBlob(name) + EncodeBlob(e.entry.encryptedData) + rest;
  }

  lemma {:induction false} ParseAllEncoded(es: seq<RawEntry>, rest: Bytes)
    requires AllRawOk(es)
    ensures ParseEntries(|es|, EncodeEntries(es) + rest) == Some((es, rest))
  {
    if es == [] {
      assert EncodeEntries(es) + rest == rest;
    } else {
      var tail := EncodeEntries(es[1..]) + rest;
      ParseAllEncoded(es[1..], rest);
      assert EncodeEntries(es) + rest == EncodeEntry(es[0]) + tail;
      ParseEncoded(es[0], tail);
      assert [es[0]] + es[1..] == es;
    }
  }

  lemma {:induction false} ParseAllSound(n: nat, b: Bytes)
    requires ParseEntries(n, b).Some?
    ensures |ParseEntries(n, b).value.0| == n
    ensures AllRawOk(ParseEntries(n, b).value.0)
    ensures b == EncodeEntries(ParseEntries(n, b).value.0) + ParseEntries(n, b).value.1
  {
    hide ParseEntry, EncodeEntry, RawOk;
    if n > 0 {
      var (e, b1) := ParseEntry(b).value;
      var (es, b2) := ParseEntries(n - 1, b1).value;
      ParseSound(b);
      ParseAllSound(n - 1, b1);
      assert ([e] + es)[1..] == es;
      assert EncodeEntry(e) + (EncodeEntries(es) + b2) == EncodeEntry(e) + EncodeEntries(es) + b2;
    }
  }

  lemma {:induction false} EntriesAtLeast(es: seq<RawEntry>)
    requires AllRawOk(es)
    ensures |EncodeEntries(es)| >= |es| * MIN_ENTRY_LEN
  {
    if es != [] {
      EntriesAtLeast(es[1..]);
    }
  }

  lemma PreambleFields(nc: u64, dc: u64, count: u32, tail: Bytes)
    ensures var b := Preamble(nc, dc, count) + tail;
      && FromLe(b[..2]) == VAULT_INDEX_VERSION && FromLe(b[2..10]) == nc && FromLe(b[10..18]) == dc
      && FromLe(b[18..22]) == count && b[22..] == tail
  {
    hide Le, FromLe;
    var b := Preamble(nc, dc, count) + tail;
    assert b[..2] == Le(VAULT_INDEX_VERSION, 2);
    assert b[2..10] == Le(nc, 8);
    assert b[10..18] == Le(dc, 8);
    assert b[18..22] == Le(count, 4);
    DecodeLeU16(VAULT_INDEX_VERSION);
    DecodeLeU64(nc);
    DecodeLeU64(dc);
    DecodeLeU32(count);
  }

  lemma PreambleBytes(b: Bytes)
    requires |b| >= INDEX_PREAMBLE_LEN && FromLe(b[..2]) == VAULT_INDEX_VERSION
    ensures FromLe(b[2..10]) <= U64_MAX && FromLe(b[10..18]) <= U64_MAX
    ensures Preamble(FromLe(b[2..10]), FromLe(b[10..18]), FromLe(b[18..22])) == b[..22]
  {
    hide Le, FromLe;
    FromLeU64(b[2..10]);
    FromLeU64(b[10..18]);
    EncodeLe(b[..2]);
    EncodeLe(b[2..10]);
    EncodeLe(b[10..18]);
    EncodeLe(b[18..22]);
    JoinSlices(b, 2, 10);
    JoinSlices(b, 10, 18);
    JoinSlices(b, 18, 22);
  }

  /** Every list the grammar admits is accepted, with the counters and the map it stands for. */
  lemma DecodeComplete(nc: u64, dc: u64, es: seq<RawEntry>, early: bool)
    requires Grammar(es)
    ensures Decode(RawEncode(nc, dc, es), early) == Ok(IndexData(nc, dc, FilesOf(es)))
    ensures EntriesRead(RawEncode(nc, dc, es)) == es
  {
    var body := EncodeEntries(es);
    PreambleFields(nc, dc, |es|, body);
    ParseAllEncoded(es, []);
    assert body + [] == body;
    EntriesAtLeast(es);
  }

  /** An accepted input is the encoding of the entries read from it, in that order. */
  lemma DecodeSound(b: Bytes, early: bool)
    requires Decode(b, early).Ok?
    ensures Grammar(EntriesRead(b))
    ensures var d := Decode(b, early).value;
      && d.files == FilesOf(EntriesRead(b))
      && b == RawEncode(d.nonceCounter, d.dataNonceCounter, EntriesRead(b))
  {
    hide Le, FromLe, ParseEntries;
    var count := FromLe(b[18..22]);
    var es := ParseEntries(count, b[22..]).value.0;
    ParseAllSound(count, b[22..]);
    assert EncodeEntries(es) + [] == EncodeEntries(es);
    PreambleBytes(b);
    assert b == b[..22] + b[22..];
  }

  ghost predicate Encodes(b: Bytes, d: IndexData, es: seq<RawEntry>) {
    Grammar(es) && b == RawEncode(d.nonceCounter, d.dataNonceCounter, es) && d.files == FilesOf(es)
  }

  /** The decoder accepts exactly the language the encoder generates. */
  lemma DecodeExact(b: Bytes, d: IndexData)
    ensures Decode(b) == Ok(d) <==> exists es :: Encodes(b, d, es)
  {
    if Decode(b) == Ok(d) {
      DecodeSound(b, true);
      assert Encodes(b, d, EntriesRead(b));
    }
    if es :| Encodes(b, d, es) {
      DecodeComplete(d.nonceCounter, d.dataNonceCounter, es, true);
    }
  }

  /** Comparing the entry count with the remaining bytes first never changes the outcome. */
  lemma EarlyCheckHarmless(b: Bytes)
    ensures Decode(b, true) == Decode(b, false)
  {
    if Decode(b, false).Ok? {
      DecodeSound(b, false);
      var d := Decode(b, false).value;
      DecodeComplete(d.nonceCounter, d.dataNonceCounter, EntriesRead(b), true);
    }
  }

  /** No accepted input is a proper prefix of another, so truncations and extensions are rejected. */
  lemma PrefixFree(a: Bytes, b: Bytes)
    requires Decode(a).Ok? && Decode(b).Ok? && a <= b
    ensures a == b
  {
    hide FromLe, ParseEntries, EncodeEntries, DistinctKeys, FilesOf, AllRawOk;
    var count := FromLe(a[18..22]);
    var es := EntriesRead(a);
    var extra := b[|a|..];
    assert a[18..22] == b[18..22];
    ParseAllSound(count, a[22..]);
    ParseAllEncoded(es, extra);
    assert b[22..] == a[22..] + extra;
    assert EncodeEntries(es) + [] == EncodeEntries(es);
  }

  // ---------------------------------------------------------------- the map behind a list

  lemma {:induction false} FilesOfKeys(es: seq<RawEntry>, k: Bytes)
    ensures k in FilesOf(es) <==> exists i :: 0 <= i < |es| && Hex(es[i].key) == k
  {
    if es != [] {
      var n := |es| - 1;
      FilesOfKeys(es[..n], k);
      if i :| 0 <= i < |es| && Hex(es[i].key) == k {
        assert i < n ==> es[..n][i] == es[i];
      }
      if j :| 0 <= j < n && Hex(es[..n][j].key) == k {
        assert es[j] == es[..n][j];
      }
      if k == Hex(es[n].key) {
        assert 0 <= n < |es|;
      }
    }
  }

  lemma {:induction false} FilesOfLookup(es: seq<RawEntry>, i: nat)
    requires DistinctKeys(es) && i < |es|
    ensures Hex(es[i].key) in FilesOf(es) && FilesOf(es)[Hex(es[i].key)] == es[i].entry
  {
    var n := |es| - 1;
    if i < n {
      assert es[..n][i] == es[i];
      FilesOfLookup(es[..n], i);
      if Hex(es[i].key) == Hex(es[n].key) {
        HexInjective(es[i].key, es[n].key);
      }
    }
  }

  lemma {:induction false} FilesOfSize(es: seq<RawEntry>)
    requires DistinctKeys(es)
    ensures |FilesOf(es)| == |es|
  {
    if es != [] {
      var n := |es| - 1;
      FilesOfSize(es[..n]);
      FilesOfKeys(es[..n], Hex(es[n].key));
      if i :| 0 <= i < n && Hex(es[..n][i].key) == Hex(es[n].key) {
        HexInjective(es[i].key, es[n].key);
      }
    }
  }

  /** What every decoder guarantees of a map, and every encoder needs. */
  predicate WellFormed(files: Files) {
    && |files| <= MAX_INDEX_ENTRIES
    && forall k :: k in files ==> ParseKey(k).Some? && SizesInWindow(files[k])
  }

  lemma DecodedWellFormed(b: Bytes)
    requires Decode(b).Ok?
    ensures WellFormed(Decode(b).value.files)
  {
    DecodeSound(b, true);
    var es := EntriesRead(b);
    FilesOfSize(es);
    forall k | k in FilesOf(es) ensures ParseKey(k).Some? && SizesInWindow(FilesOf(es)[k]) {
      FilesOfKeys(es, k);
      var i :| 0 <= i < |es| && Hex(es[i].key) == k;
      FilesOfLookup(es, i);
      KeyTextExact(k, es[i].key);
    }
  }

  lemma {:induction false} CopiesBounded(n: nat, b: Bytes, seen: set<Bytes>)
    ensures Copies(n, b, seen) <= |b|
  {
    hide FromLe;
    if n > 0 && ParseEntry(b).Some? {
      var (e, rest) := ParseEntry(b).value;
      CopiesBounded(n - 1, rest, seen + {e.key});
    }
  }

  /** When every entry is read and no key recurs, the copies are all but the 48 fixed bytes of each entry. */
  lemma {:induction false} CopiesExact(n: nat, b: Bytes, seen: set<Bytes>)
    requires ParseEntries(n, b).Some?
    requires var es := ParseEntries(n, b).value.0; DistinctKeys(es) && forall i :: 0 <= i < |es| ==> es[i].key !in seen
    ensures |b| == ENTRY_FIXED_LEN * n + Copies(n, b, seen) + |ParseEntries(n, b).value.1|
  {
    hide FromLe;
    if n > 0 {
      var (e, rest) := ParseEntry(b).value;
      var es := ParseEntries(n, b).value.0;
      var more := ParseEntries(n - 1, rest).value.0;
      assert es == [e] + more;
      forall i, j | 0 <= i < j < |more| ensures more[i].key != more[j].key {
        assert more[i] == es[i + 1] && more[j] == es[j + 1];
      }
      forall i | 0 <= i < |more| ensures more[i].key !in seen + {e.key} {
        assert more[i] == es[i + 1] && es[0] == e;
      }
      assert es[0] == e;
      CopiesExact(n - 1, rest, seen + {e.key});
    }
  }

  /**
   * On every input, accepted or not, the capacity reserved is paid for with 128 bytes of input an entry and no
   * more bytes are copied than the input has; on an accepted input exactly the reserved capacity is filled, and every
   * byte but the preamble and 48 for each entry is copied.
   */
  lemma CapacityBounded(b: Bytes)
    ensures Reserved(b, true) > 0 ==> Reserved(b, true) * MIN_ENTRY_LEN <= |b| - INDEX_PREAMBLE_LEN
    ensures Copied(b) <= |b|
    ensures Decode(b).Ok? ==> |Decode(b).value.files| == Reserved(b, true) && |b| == 22 + 48 * Reserved(b, true) + Copied(b)
  {
    hide FromLe, ParseEntries, Copies, DistinctKeys, FilesOf;
    if Admitted(b, true) {
      CopiesBounded(DeclaredCount(b), b[22..], {});
      if Decode(b).Ok? {
        ParseAllSound(DeclaredCount(b), b[22..]);
        FilesOfSize(ParseEntries(DeclaredCount(b), b[22..]).value.0);
        CopiesExact(DeclaredCount(b), b[22..], {});
      }
    }
  }

  /** Without the early check 22 bytes make the decoder reserve whatever capacity they declare, up to the cap. */
  lemma UncheckedReserves(nc: u64, dc: u64, count: u32)
    requires 0 < count <= MAX_INDEX_ENTRIES
    ensures var b := Preamble(nc, dc, count);
      |b| == INDEX_PREAMBLE_LEN && Reserved(b, false) == count && Reserved(b, true) == 0 && Decode(b, false).Err?
  {
    hide Le, FromLe, ParseEntries;
    var b := Preamble(nc, dc, count);
    assert b + [] == b;
    PreambleFields(nc, dc, count, []);
    EarlyCheckHarmless(b);
  }

  // ---------------------------------------------------------------- encoder

  predicate Encodable(files: Files, k: Bytes) {
    && k in files
    && ParseKey(k).Some?
    && |files[k].encryptedName| < 0x1_0000_0000
    && |files[k].encryptedData| < 0x1_0000_0000
  }

  function RawEntryAt(files: Files, k: Bytes): RawEntry
    requires Encodable(files, k)
  {
    RawEntry(ParseKey(k).value, files[k])
  }

  function EntriesInOrder(files: Files, order: seq<Bytes>): (es: seq<RawEntry>)
    requires forall i :: 0 <= i < |order| ==> Encodable(files, order[i])
    ensures |es| == |order|
  {
    seq(|order|, i requires 0 <= i < |order| => RawEntryAt(files, order[i]))
  }

  /** What `encode_index` computes when the map is walked in `order`. */
  function Encode(d: IndexData, order: seq<Bytes>): Result<Bytes> {
    if |d.files| < 0x1_0000_0000 && forall i :: 0 <= i < |order| ==> Encodable(d.files, order[i]) then
      Ok(RawEncode(d.nonceCounter, d.dataNonceCounter, EntriesInOrder(d.files, order)))
    else
      Err(SerializationError)
  }

  function EntryCost(files: Files): Bytes -> nat {
    k => if k in files then ENTRY_FIXED_LEN + |files[k].encryptedName| + |files[k].encryptedData| else 0
  }

  lemma {:induction false} EncodeAppend(es: seq<RawEntry>, e: RawEntry)
    ensures EncodeEntries(es + [e]) == EncodeEntries(es) + EncodeEntry(e)
  {
    if es == [] {
      assert [e][1..] == [];
      assert es + [e] == [e];
      assert EncodeEntries([e]) == EncodeEntry(e) + [];
    } else {
      assert (es + [e])[1..] == es[1..] + [e];
      EncodeAppend(es[1..], e);
    }
  }

  lemma {:induction false} EncodedLength(files: Files, order: seq<Bytes>)
    requires forall i :: 0 <= i < |order| ==> Encodable(files, order[i])
    ensures |EncodeEntries(EntriesInOrder(files, order))| == Sum(EntryCost(files), order)
  {
    if order != [] {
      EncodedLength(files, order[1..]);
      assert EntriesInOrder(files, order)[1..] == EntriesInOrder(files, order[1..]);
    }
  }

  /** The precomputed output size, and every intermediate sum, fits a 64-bit `usize`. */
  lemma TotalFits(files: Files, order: seq<Bytes>)
    requires WellFormed(files) && Enumerates(order, files.Keys)
    ensures INDEX_PREAMBLE_LEN + Sum(EntryCost(files), order) <= AEAD_MAX_PLAINTEXT < U64_MAX
  {
    var bound := ENTRY_FIXED_LEN + MAX_ENCRYPTED_NAME_LEN + MAX_ENCRYPTED_DATA_LEN;
    EnumerationSize(order, files.Keys);
    SumBound(EntryCost(files), order, bound);
    assert |order| * bound <= MAX_INDEX_ENTRIES * bound;
  }

  lemma OrderedEntriesOk(files: Files, order: seq<Bytes>)
    requires WellFormed(files) && Enumerates(order, files.Keys)
    ensures forall i :: 0 <= i < |order| ==> Encodable(files, order[i])
    ensures Grammar(EntriesInOrder(files, order))
    ensures forall i :: 0 <= i < |order| ==> Hex(EntriesInOrder(files, order)[i].key) == order[i]
  {
    hide Hex, ParseKey;
    assert forall i :: 0 <= i < |order| ==> order[i] in order;
    var es := EntriesInOrder(files, order);
    EnumerationSize(order, files.Keys);
    forall i | 0 <= i < |order| ensures Hex(es[i].key) == order[i] && RawOk(es[i]) {
      KeyTextExact(order[i], es[i].key);
    }
  }

  lemma OrderedEntriesFiles(files: Files, order: seq<Bytes>)
    requires WellFormed(files) && Enumerates(order, files.Keys)
    requires forall i :: 0 <= i < |order| ==> Encodable(files, order[i])
    ensures FilesOf(EntriesInOrder(files, order)) == files
  {
    hide Hex, ParseKey, FilesOf;
    OrderedEntriesOk(files, order);
    var es := EntriesInOrder(files, order);
    forall k ensures k in FilesOf(es) <==> k in files {
      FilesOfKeys(es, k);
      if k in files {
        assert k in order;
      }
      if i :| 0 <= i < |es| && Hex(es[i].key) == k {
        assert order[i] in order;
      }
    }
    forall k | k in files ensures FilesOf(es)[k] == files[k] {
      assert k in order;
      var i :| 0 <= i < |order| && order[i] == k;
      FilesOfLookup(es, i);
    }
  }

  /** Decoding undoes encoding, whatever order the encoder walked the map in. */
  lemma DecodeEncode(d: IndexData, order: seq<Bytes>)
    requires WellFormed(d.files) && Enumerates(order, d.files.Keys)
    ensures Encode(d, order).Ok? && Decode(Encode(d, order).value) == Ok(d)
  {
    OrderedEntriesOk(d.files, order);
    OrderedEntriesFiles(d.files, order);
    DecodeComplete(d.nonceCounter, d.dataNonceCounter, EntriesInOrder(d.files, order), true);
  }

  method AppendEntry(prefix: Bytes, key: Bytes, entry: IndexEntry) returns (out: Bytes)
    ensures out == prefix + EncodeEntry(RawEntry(key, entry))
  {
    out := prefix + key;
    out := out + Le(entry.dataCounter, 8);
    out := out + Le(|entry.encryptedName|, 4) + entry.encryptedName;
    out := out + Le(|entry.encryptedData|, 4) + entry.encryptedData;
  }

  lemma ExtendOrder(files: Files, order: seq<Bytes>, i: nat)
    requires i < |order|
    requires forall j :: 0 <= j <= i ==> Encodable(files, order[j])
    ensures EncodeEntries(EntriesInOrder(files, order[..i + 1])) ==
            EncodeEntries(EntriesInOrder(files, order[..i])) + EncodeEntry(RawEntryAt(files, order[i]))
  {
    var e := RawEntryAt(files, order[i]);
    EncodeAppend(EntriesInOrder(files, order[..i]), e);
    assert EntriesInOrder(files, order[..i + 1]) == EntriesInOrder(files, order[..i]) + [e];
  }

  lemma EncodeNothing()
    ensures EncodeEntries([]) == []
  {
  }

  method EncodeIndex(d: IndexData, order: seq<Bytes>) returns (r: Result<Bytes>)
    requires Enumerates(order, d.files.Keys)
    ensures r == Encode(d, order)
    ensures r.Ok? ==> |r.value| == INDEX_PREAMBLE_LEN + Sum(EntryCost(d.files), order)
  {
    hide Le, EncodeEntry, EncodeEntries, ParseKey, Sum;
    if |d.files| >= 0x1_0000_0000 {
      return Err(SerializationError);
    }
    assert forall i :: 0 <= i < |order| ==> order[i] in order;
    EnumerationSize(order, d.files.Keys);
    var out := Preamble(d.nonceCounter, d.dataNonceCounter, |d.files|);
    ghost var preamble := out;
    assert EntriesInOrder(d.files, order[..0]) == [];
    EncodeNothing();
    for i := 0 to |order|
      invariant forall j :: 0 <= j < i ==> Encodable(d.files, order[j])
      invariant out == preamble + EncodeEntries(EntriesInOrder(d.files, order[..i]))
    {
      var entry := d.files[order[i]];
      var key := HexToKey(order[i]);
      if key.None? || |entry.encryptedName| >= 0x1_0000_0000 || |entry.encryptedData| >= 0x1_0000_0000 {
        return Err(SerializationError);
      }
      ExtendOrder(d.files, order, i);
      out := AppendEntry(out, key.value, entry);
    }
    assert order[..|order|] == order;
    EncodedLength(d.files, order);
    r := Ok(out);
  }

  // ---------------------------------------------------------------- reader and decoder

  /** Bounds-checked cursor over the index bytes. */
  class Reader {
    const buf: Bytes
    var pos: nat

    ghost predicate Valid()
      reads this
    {
      pos <= |buf|
    }

    function Rest(): Bytes
      requires Valid()
      reads this
    {
      buf[pos..]
    }

    constructor (bytes: Bytes)
      ensures Valid() && buf == bytes && pos == 0
    {
      buf := bytes;
      pos := 0;
    }

    method Take(n: nat) returns (r: Result<Bytes>)
      requires Valid()
      modifies this
      ensures Valid() && pos >= old(pos)
      ensures n <= |old(Rest())| ==> r == Ok(old(Rest())[..n]) && Rest() == old(Rest())[n..] && pos == old(pos) + n
      ensures n > |old(Rest())| ==> r == Err(CorruptedData) && pos == old(pos)
    {
      if n > |buf| - pos {
        return Err(CorruptedData);
      }
      r := Ok(buf[pos..pos + n]);
      assert buf[pos..][..n] == buf[pos..pos + n];
      assert buf[pos..][n..] == buf[pos + n..];
      pos := pos + n;
    }

    /** Reads an integer of `w` bytes. */
    method Int(w: nat) returns (r: Result<nat>)
      requires Valid()
      modifies this
      ensures Valid() && pos >= old(pos)
      ensures w <= |old(Rest())| ==> r == Ok(FromLe(old(Rest())[..w])) && Rest() == old(Rest())[w..] && pos == old(pos) + w
      ensures w > |old(Rest())| ==> r == Err(CorruptedData) && pos == old(pos)
    {
      var bytes :- Take(w);
      r := Ok(FromLe(bytes));
    }
  }

  /** Reads a length, checks it against its window, then takes that many bytes. */
  method ReadBlob(r: Reader, max: nat) returns (res: Result<Bytes>)
    requires r.Valid()
    modifies r
    ensures r.Valid() && r.pos >= old(r.pos)
    ensures res.Ok? ==> old(r.pos) + |res.value| <= r.pos
    ensures match ParseBlob(old(r.Rest()), max)
      case None => res == Err(CorruptedData)
      case Some((blob, rest)) => res == Ok(blob) && r.Rest() == rest
  {
    hide FromLe;
    ghost var b := r.Rest();
    var len :- r.Int(4);
    if !(MIN_ENCRYPTED_LEN <= len <= max) {
      return Err(CorruptedData);
    }
    assert |b| >= 4 + len ==> b[4..][..len] == b[4..4 + len] && b[4..][len..] == b[4 + len..];
    res := r.Take(len);
  }

  /** The body of the decoder's loop, up to the insertion into the map. */
  method ReadEntry(r: Reader) returns (res: Result<RawEntry>, ghost copied: nat)
    requires r.Valid()
    modifies r
    ensures r.Valid() && old(r.pos) + copied <= r.pos
    ensures copied == EntryCopies(old(r.Rest()))
    ensures match ParseEntry(old(r.Rest()))
      case None => res == Err(CorruptedData)
      case Some((e, rest)) => res == Ok(e) && r.Rest() == rest
  {
    hide FromLe, ParseBlob;
    copied := 0;
    ghost var b := r.Rest();
    var key :- r.Take(ENTRY_KEY_LEN);
    var dataCounter :- r.Int(8);
    FromLeU64(b[32..40]);
    assert b[32..][..8] == b[32..40];
    assert r.Rest() == b[40..];
    var encryptedName :- ReadBlob(r, MAX_ENCRYPTED_NAME_LEN);
    copied := |encryptedName|;
    var encryptedData :- ReadBlob(r, MAX_ENCRYPTED_DATA_LEN);
    copied := copied + |encryptedData|;
    res := Ok(RawEntry(key, IndexEntry(dataCounter, encryptedName, encryptedData)));
  }

  /** The entries parsed from the whole body, when `es` are read and `rest` is left. */
  function Continue(es: seq<RawEntry>, n: nat, rest: Bytes): Option<(seq<RawEntry>, Bytes)> {
    var (more, end) :- ParseEntries(n, rest);
    Some((es + more, end))
  }

  lemma ContinueStep(es: seq<RawEntry>, n: nat, b: Bytes)
    requires n > 0
    ensures ParseEntry(b) == None ==> Continue(es, n, b) == None
    ensures ParseEntry(b).Some? ==>
      Continue(es, n, b) == Continue(es + [ParseEntry(b).value.0], n - 1, ParseEntry(b).value.1)
  {
    if ParseEntry(b).Some? {
      var (e, b1) := ParseEntry(b).value;
      if ParseEntries(n - 1, b1).Some? {
        var more := ParseEntries(n - 1, b1).value.0;
        assert es + ([e] + more) == es + [e] + more;
      }
    }
  }

  lemma DuplicateRejected(es: seq<RawEntry>, e: RawEntry, n: nat, rest: Bytes, i: nat)
    requires i < |es| && es[i].key == e.key
    ensures Continue(es + [e], n, rest).Some? ==> !DistinctKeys(Continue(es + [e], n, rest).value.0)
  {
    if Continue(es + [e], n, rest).Some? {
      var all := Continue(es + [e], n, rest).value.0;
      assert all[i] == es[i] && all[|es|] == e;
    }
  }

  function KeysOf(es: seq<RawEntry>): set<Bytes> {
    set i | 0 <= i < |es| :: es[i].key
  }

  lemma KeySeen(es: seq<RawEntry>, e: RawEntry)
    ensures Hex(e.key) in FilesOf(es) <==> e.key in KeysOf(es)
    ensures KeysOf(es + [e]) == KeysOf(es) + {e.key}
  {
    hide Hex;
    FilesOfKeys(es, Hex(e.key));
    if Hex(e.key) in FilesOf(es) {
      var i :| 0 <= i < |es| && Hex(es[i].key) == Hex(e.key);
      HexInjective(es[i].key, e.key);
    }
    assert (es + [e])[|es|] == e;
    assert forall i :: 0 <= i < |es| ==> (es + [e])[i] == es[i];
  }

  method ReadEntries(r: Reader, count: nat) returns (res: Result<Files>, ghost copied: nat)
    requires r.Valid()
    modifies r
    ensures r.Valid() && old(r.pos) + copied <= r.pos
    ensures copied == Copies(count, old(r.Rest()), {})
    ensures match ParseEntries(count, old(r.Rest()))
      case None => res == Err(CorruptedData)
      case Some((es, rest)) =>
        if DistinctKeys(es) then res == Ok(FilesOf(es)) && r.Rest() == rest else res == Err(CorruptedData)
  {
    hide ParseEntry, EntryCopies, Hex, FilesOf;
    copied := 0;
    ghost var body := r.Rest();
    ghost var es: seq<RawEntry> := [];
    var files: Files := map[];
    NothingRead(count, body);
    for i := 0 to count
      invariant r.Valid() && old(r.pos) + copied <= r.pos
      invariant files == FilesOf(es) && DistinctKeys(es)
      invariant Continue(es, count - i, r.Rest()) == ParseEntries(count, body)
      invariant copied + Copies(count - i, r.Rest(), KeysOf(es)) == Copies(count, body, {})
    {
      ContinueStep(es, count - i, r.Rest());
      var entry: Result<RawEntry>;
      ghost var bytes: nat;
      entry, bytes := ReadEntry(r);
      copied := copied + bytes;
      var e :- entry;
      var key := KeyToHex(e.key);
      KeySeen(es, e);
      if key in files {
        ghost var j :| 0 <= j < |es| && es[j].key == e.key;
        DuplicateRejected(es, e, count - i - 1, r.Rest(), j);
        return Err(CorruptedData), copied;
      }
      files := files[key := e.entry];
      Inserted(es, e);
      es := es + [e];
    }
    assert es + [] == es;
    res := Ok(files);
  }

  lemma NothingRead(count: nat, body: Bytes)
    ensures Continue([], count, body) == ParseEntries(count, body)
    ensures FilesOf([]) == map[] && KeysOf([]) == {}
  {
    if ParseEntries(count, body).Some? {
      var more := ParseEntries(count, body).value.0;
      assert [] + more == more;
    }
  }

  lemma Inserted(es: seq<RawEntry>, e: RawEntry)
    ensures FilesOf(es + [e]) == FilesOf(es)[Hex(e.key) := e.entry]
    ensures DistinctKeys(es) && e.key !in KeysOf(es) ==> DistinctKeys(es + [e])
  {
    assert (es + [e])[..|es|] == es;
  }

  /** Version, counters and entry count, up to the first entry. */
  method ReadPreamble(r: Reader) returns (res: Result<(u64, u64, nat)>)
    requires r.Valid() && r.pos == 0
    modifies r
    ensures r.Valid()
    ensures |r.buf| < INDEX_PREAMBLE_LEN || FromLe(r.buf[..2]) != VAULT_INDEX_VERSION ==> res == Err(CorruptedData)
    ensures |r.buf| >= INDEX_PREAMBLE_LEN && FromLe(r.buf[..2]) == VAULT_INDEX_VERSION ==>
      r.Rest() == r.buf[22..]
      && res == Ok((FromLe(r.buf[2..10]), FromLe(r.buf[10..18]), FromLe(r.buf[18..22])))
  {
    hide FromLe;
    var bytes := r.buf;
    assert r.Rest() == bytes;
    var version :- r.Int(2);
    if version != VAULT_INDEX_VERSION {
      return Err(CorruptedData);
    }
    assert r.Rest() == bytes[2..];
    var nonceCounter :- r.Int(8);
    assert bytes[2..][..8] == bytes[2..10];
    assert r.Rest() == bytes[10..];
    var dataNonceCounter :- r.Int(8);
    assert bytes[10..][..8] == bytes[10..18];
    assert r.Rest() == bytes[18..];
    var count :- r.Int(4);
    assert bytes[18..][..4] == bytes[18..22];
    assert r.Rest() == bytes[22..];
    FromLeU64(bytes[2..10]);
    FromLeU64(bytes[10..18]);
    res := Ok((nonceCounter, dataNonceCounter, count));
  }

  method DecodeIndex(bytes: Bytes) returns (res: Result<IndexData>, ghost reserved: nat, ghost copied: nat)
    ensures res == Decode(bytes)
    ensures reserved == Reserved(bytes, true) && copied == Copied(bytes)
  {
    hide FromLe, ParseEntries, DistinctKeys, FilesOf, Copies;
    reserved, copied := 0, 0;
    var r := new Reader(bytes);
    var preamble :- ReadPreamble(r);
    var (nonceCounter, dataNonceCounter, count) := preamble;
    if count > MAX_INDEX_ENTRIES || count * MIN_ENTRY_LEN > |r.Rest()| {
      return Err(CorruptedData), reserved, copied;
    }
    reserved := count;
    var filled: Result<Files>;
    filled, copied := ReadEntries(r, count);
    var files :- filled;
    if r.pos != |bytes| {
      return Err(CorruptedData), reserved, copied;
    }
    res := Ok(IndexData(nonceCounter, dataNonceCounter, files));
  }
}
