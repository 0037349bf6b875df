/** The bytes of the format, place by place: what each offset of an index, a header and a key text holds. */
module Layouts {
  import opened Binary
  import opened Decimal
  import opened Enumerations
  import opened HexKey
  import opened IndexCodec
  import opened Results
  import opened VaultHeaders

  // ---------------------------------------------------------------- numbers and digits

  /** Integers are stored low byte first. */
  lemma LittleEndian(n: nat)
    ensures Le(n, 2) == [(n % 256) as byte, (n / 0x100 % 256) as byte]
    ensures Le(n, 4) == Le(n, 2) + [(n / 0x1_0000 % 256) as byte, (n / 0x100_0000 % 256) as byte]
    ensures Le(n, 8) == Le(n, 4) + Le(n / 0x1_0000_0000, 4)
  {
    hide Le;
    TwoBytes(n, 0);
    TwoBytes(n, 2);
    TwoBytes(n, 6);
    TwoBytes(n / 0x1_0000, 0);
    TwoBytes(n / 0x1_0000, 4);
    assert n / 0x1_0000 / 0x1_0000 == n / 0x1_0000_0000 && n / 0x1_0000 / 256 == n / 0x100_0000;
  }

  lemma TwoBytes(n: nat, w: nat)
    ensures Le(n, 2 + w) == [(n % 256) as byte, (n / 256 % 256) as byte] + Le(n / 0x1_0000, w)
    ensures Le(n, 0) == []
  {
    assert Le(n, 2 + w) == [(n % 256) as byte] + Le(n / 256, 1 + w);
    assert Le(n / 256, 1 + w) == [(n / 256 % 256) as byte] + Le(n / 256 / 256, w);
    assert n / 256 / 256 == n / 0x1_0000;
  }

  lemma DivideTwice(n: nat, a: nat, b: nat)
    requires a > 0 && b > 0
    ensures a * b > 0 && n / a / b == n / (a * b)
  {
    var q, r, t := n / a / b, n / a % b, n % a;
    Positive(a, b);
    assert n / a == b * q + r;
    calc {
      n;
      a * (n / a) + t;
      a * (b * q + r) + t;
      a * (b * q) + (a * r + t);
      { Associate(a, b, q); }
      (a * b) * q + (a * r + t);
    }
    Below(a, b, r, t);
    QuotientUnique(n, a * b, q, a * r + t);
  }

  lemma Positive(a: nat, b: nat)
    requires a > 0 && b > 0
    ensures a * b > 0
  {
  }

  lemma Associate(a: nat, b: nat, q: nat)
    ensures a * (b * q) == (a * b) * q
  {
  }

  lemma Below(a: nat, b: nat, r: nat, t: nat)
    requires r < b && t < a
    ensures 0 <= a * r + t < a * b
  {
    var c := b - 1 - r;
    assert a * b == a * r + a * c + a;
  }

  lemma QuotientUnique(n: nat, d: nat, q: nat, r: nat)
    requires d > 0 && r < d && n == d * q + r
    ensures n / d == q
  {
    var p, s := n / d, n % d;
    assert n == d * p + s;
    if p < q {
      Apart(d, p, q);
    } else if q < p {
      Apart(d, q, p);
    }
  }

  lemma Apart(d: nat, p: nat, q: nat)
    requires p < q
    ensures d * p + d <= d * q
  {
    var k := q - p - 1;
    assert d * q == d * p + d + d * k;
  }

  /** The hex text of a key: for each byte the digit of its high half, then that of its low half. */
  lemma {:induction false} HexText(key: Bytes, i: nat)
    requires i < |key|
    ensures Hex(key)[2 * i] as char == "0123456789abcdef"[key[i] as nat / 16]
    ensures Hex(key)[2 * i + 1] as char == "0123456789abcdef"[key[i] as nat % 16]
  {
    if i < |key| - 1 {
      HexText(key[..|key| - 1], i);
    }
  }

  /** Decimal text: the digits of the number, most significant first, as many as it needs. */
  lemma {:induction false} DecimalText(n: nat, i: nat)
    requires i < |Dec(n)|
    ensures Dec(n)[i] as char == "0123456789"[n / Pow10(|Dec(n)| - 1 - i) % 10]
    ensures n < Pow10(|Dec(n)|) && (n > 0 ==> Pow10(|Dec(n)| - 1) <= n)
  {
    if n >= 10 {
      var k := |Dec(n)| - 1;
      assert Dec(n) == Dec(n / 10) + [(48 + n % 10) as byte];
      if i < k {
        DecimalText(n / 10, i);
        DivideTwice(n, 10, Pow10(k - 1 - i));
        assert Dec(n)[i] == Dec(n / 10)[i];
        DigitChar(n / 10 / Pow10(k - 1 - i) % 10);
      } else {
        DecimalText(n / 10, 0);
        DigitChar(n % 10);
        assert n / Pow10(0) == n;
      }
    } else {
      assert Pow10(1) == 10 * Pow10(0);
      DigitChar(n);
      assert n / Pow10(0) == n;
    }
  }

  lemma DigitChar(v: nat)
    requires v < 10
    ensures (48 + v) as byte as char == "0123456789"[v]
  {
  }

  // ---------------------------------------------------------------- header

  lemma AsciiText(s: string, i: nat)
    requires i < |s| && s[i] < 128 as char
    ensures Ascii(s)[i] as char == s[i]
  {
  }

  /** The salt: its bytes as decimal numbers with commas between them. */
  lemma {:induction false} ElementsText(xs: Bytes, x: byte)
    ensures PrintElements(xs + [x]) == if xs == [] then Dec(x as nat) else PrintElements(xs) + Ascii(",") + Dec(x as nat)
  {
    if xs == [] {
      assert [] + [x] == [x] && [x][1..] == [];
      assert PrintElements([x]) == PrintItem(x, true) + PrintElements([]);
    } else {
      ElementsText(xs[1..], x);
      assert (xs + [x])[1..] == xs[1..] + [x];
      assert PrintElements(xs + [x]) == PrintItem(xs[0], false) + PrintElements(xs[1..] + [x]);
      if |xs| > 1 {
        assert PrintElements(xs) == PrintItem(xs[0], false) + PrintElements(xs[1..]);
      } else {
        assert PrintElements(xs) == PrintItem(xs[0], true) + PrintElements([]);
      }
    }
  }

  /** The header is this compact JSON text, fields in this order. */
  lemma HeaderText(h: VaultHeader)
    ensures PrintHeader(h) ==
      Ascii("{\"version\":") + Dec(h.version) + Ascii(",\"kdf_salt\":[") + PrintElements(h.kdfSalt)
      + Ascii("],\"kdf_iterations\":") + Dec(h.kdfIterations) + Ascii(",\"kdf_memory_cost\":") + Dec(h.kdfMemoryCost)
      + Ascii(",\"key_length\":") + Dec(h.keyLength) + Ascii("}")
  {
    hide Ascii, Dec, PrintElements;
  }

  // ---------------------------------------------------------------- index

  /** Where entry `i` begins: behind 22 bytes and the entries before it, of 48 bytes and two blobs each. */
  function Offset(es: seq<RawEntry>, i: nat): nat
    requires i <= |es|
  {
    if i == 0 then 22
    else Offset(es, i - 1) + 48 + |es[i - 1].entry.encryptedName| + |es[i - 1].entry.encryptedData|
  }

  /** At `o` stand the raw key, the counter, and both blobs behind their lengths, name first. */
  predicate EntryAt(b: Bytes, o: nat, e: RawEntry) {
    var n, m := |e.entry.encryptedName|, |e.entry.encryptedData|;
    && o + 48 + n + m <= |b|
    && b[o..o + 32] == e.key
    && b[o + 32..o + 40] == Le(e.entry.dataCounter, 8)
    && b[o + 40..o + 44] == Le(n, 4) && b[o + 44..o + 44 + n] == e.entry.encryptedName
    && b[o + 44 + n..o + 48 + n] == Le(m, 4) && b[o + 48 + n..o + 48 + n + m] == e.entry.encryptedData
  }

  /** The first `k` entries stand where the layout says. */
  predicate Placed(b: Bytes, es: seq<RawEntry>, k: nat)
    requires k <= |es|
  {
    forall i :: 0 <= i < k ==> EntryAt(b, Offset(es, i), es[i])
  }

  /** Format number 2, both counters, the number of entries, the entries one after the other, and nothing else. */
  predicate LaidOut(b: Bytes, nonceCounter: u64, dataNonceCounter: u64, es: seq<RawEntry>) {
    && |b| == Offset(es, |es|) >= 22
    && b[..2] == [2, 0] && b[2..10] == Le(nonceCounter, 8) && b[10..18] == Le(dataNonceCounter, 8) && b[18..22] == Le(|es|, 4)
    && Placed(b, es, |es|)
  }

  lemma {:induction false} OffsetGrows(es: seq<RawEntry>, i: nat, j: nat)
    requires i <= j <= |es|
    ensures 22 <= Offset(es, i) <= Offset(es, j)
  {
    if j > 0 && i < j {
      OffsetGrows(es, i, j - 1);
    } else if i > 0 {
      OffsetGrows(es, i - 1, i - 1);
    }
  }

  lemma EntryBytes(e: RawEntry)
    ensures EncodeEntry(e) ==
      e.key + (Le(e.entry.dataCounter, 8) + (Le(|e.entry.encryptedName|, 4) + (e.entry.encryptedName
      + (Le(|e.entry.encryptedData|, 4) + e.entry.encryptedData))))
  {
    hide Le;
  }

  lemma Within(b: Bytes, o: nat, len: nat, i: nat, j: nat)
    requires i <= j <= len && o + len <= |b|
    ensures b[o..o + len][i..j] == b[o + i..o + j]
  {
    var x := b[o..o + len];
    forall k | 0 <= k < j - i ensures x[i..j][k] == b[o + i..o + j][k] {
      assert x[i..j][k] == x[i + k] == b[o + i + k];
    }
  }

  lemma SplitEqual(x: Bytes, y: Bytes, u: Bytes, v: Bytes)
    requires |x| == |u|
    ensures x + y == u + v <==> x == u && y == v
  {
    assert (x + y)[..|x|] == x && (x + y)[|x|..] == y;
    assert (u + v)[..|u|] == u && (u + v)[|u|..] == v;
  }

  /** Comparing a stretch of bytes part by part. */
  lemma Peel(b: Bytes, i: nat, j: nat, part: Bytes, rest: Bytes)
    requires i <= j <= |b| && |part| + |rest| == j - i
    ensures b[i..j] == part + rest <==> b[i..i + |part|] == part && b[i + |part|..j] == rest
  {
    assert b[i..j] == b[i..i + |part|] + b[i + |part|..j];
    SplitEqual(b[i..i + |part|], b[i + |part|..j], part, rest);
  }

  /** A blob behind its length, and what follows. */
  lemma BlobWritten(b: Bytes, o: nat, end: nat, length: Bytes, blob: Bytes, rest: Bytes)
    requires |length| == 4 && o <= end <= |b| && end - o == 4 + |blob| + |rest|
    ensures b[o..end] == length + (blob + rest) <==>
            b[o..o + 4] == length && b[o + 4..o + 4 + |blob|] == blob && b[o + 4 + |blob|..end] == rest
  {
    Peel(b, o, end, length, blob + rest);
    Peel(b, o + 4, end, blob, rest);
  }

  lemma EntryWritten(b: Bytes, o: nat, e: RawEntry)
    requires |e.key| == 32 && o + 48 + |e.entry.encryptedName| + |e.entry.encryptedData| <= |b|
    ensures EntryAt(b, o, e) <==> b[o..o + 48 + |e.entry.encryptedName| + |e.entry.encryptedData|] == EncodeEntry(e)
  {
    hide Le, EncodeEntry;
    EntryBytes(e);
    var n, m := |e.entry.encryptedName|, |e.entry.encryptedData|;
    var end := o + 48 + n + m;
    var t5 := Le(m, 4) + (e.entry.encryptedData + []);
    var t3 := Le(n, 4) + (e.entry.encryptedName + t5);
    assert e.entry.encryptedData + [] == e.entry.encryptedData;
    Peel(b, o, end, e.key, Le(e.entry.dataCounter, 8) + t3);
    Peel(b, o + 32, end, Le(e.entry.dataCounter, 8), t3);
    BlobWritten(b, o + 40, end, Le(n, 4), e.entry.encryptedName, t5);
    BlobWritten(b, o + 44 + n, end, Le(m, 4), e.entry.encryptedData, []);
    assert b[end..end] == [];
  }

  lemma PlacedMore(b: Bytes, es: seq<RawEntry>, k: nat)
    requires k < |es|
    ensures Placed(b, es, k + 1) <==> Placed(b, es, k) && EntryAt(b, Offset(es, k), es[k])
  {
    hide EntryAt, Offset;
  }

  /** The first `k` entries are in place exactly when the bytes up to the next are their encoding. */
  lemma {:induction false} EntriesWritten(b: Bytes, es: seq<RawEntry>, k: nat)
    requires k <= |es| && Offset(es, k) <= |b| && forall i :: 0 <= i < |es| ==> |es[i].key| == 32
    ensures 22 <= Offset(es, k)
    ensures Placed(b, es, k) <==> b[22..Offset(es, k)] == EncodeEntries(es[..k])
  {
    hide EntryAt, EncodeEntry, EncodeEntries, Placed, Offset;
    OffsetGrows(es, 0, k);
    if k == 0 {
      NothingWritten(b, es);
    } else {
      var o, p, e := Offset(es, k - 1), Offset(es, k), es[k - 1];
      OffsetGrows(es, k - 1, k);
      OffsetGrows(es, 0, k - 1);
      EntriesWritten(b, es, k - 1);
      EncodedPrefix(es, k - 1);
      EncodedPrefix(es, k);
      EncodeAppend(es[..k - 1], e);
      assert es[..k] == es[..k - 1] + [e];
      EntryBytesLength(e);
      EntryWritten(b, o, e);
      Peel(b, 22, p, EncodeEntries(es[..k - 1]), EncodeEntry(e));
      PlacedMore(b, es, k - 1);
    }
  }

  lemma NothingWritten(b: Bytes, es: seq<RawEntry>)
    requires 22 <= |b|
    ensures Placed(b, es, 0) && Offset(es, 0) == 22 && b[22..22] == EncodeEntries(es[..0])
  {
  }

  lemma EntryBytesLength(e: RawEntry)
    requires |e.key| == 32
    ensures |EncodeEntry(e)| == 48 + |e.entry.encryptedName| + |e.entry.encryptedData|
  {
    hide Le;
  }

  lemma {:induction false} EncodedPrefix(es: seq<RawEntry>, k: nat)
    requires k <= |es| && forall i :: 0 <= i < |es| ==> |es[i].key| == 32
    ensures 22 + |EncodeEntries(es[..k])| == Offset(es, k)
  {
    hide EncodeEntry;
    if k > 0 {
      EncodedPrefix(es, k - 1);
      EntryBytesLength(es[k - 1]);
      EncodeAppend(es[..k - 1], es[k - 1]);
      assert es[..k] == es[..k - 1] + [es[k - 1]];
    }
  }

  /** The layout determines the bytes and the bytes the layout. */
  lemma LayoutExact(b: Bytes, nonceCounter: u64, dataNonceCounter: u64, es: seq<RawEntry>)
    requires forall i :: 0 <= i < |es| ==> |es[i].key| == 32
    ensures LaidOut(b, nonceCounter, dataNonceCounter, es) <==> b == RawEncode(nonceCounter, dataNonceCounter, es)
  {
    hide Le, EncodeEntries, Placed, Preamble, Offset;
    assert es[..|es|] == es;
    OffsetGrows(es, 0, |es|);
    EncodedPrefix(es, |es|);
    VersionBytes();
    if |b| == Offset(es, |es|) {
      EntriesWritten(b, es, |es|);
      PreambleWritten(b[..22], nonceCounter, dataNonceCounter, |es|);
      Within(b, 0, 22, 0, 2);
      Within(b, 0, 22, 2, 10);
      Within(b, 0, 22, 10, 18);
      Within(b, 0, 22, 18, 22);
      assert b == b[..22] + b[22..];
      SplitEqual(b[..22], b[22..], Preamble(nonceCounter, dataNonceCounter, |es|), EncodeEntries(es));
    }
  }

  lemma PreambleWritten(b: Bytes, nonceCounter: u64, dataNonceCounter: u64, count: nat)
    requires |b| == 22
    ensures b == Preamble(nonceCounter, dataNonceCounter, count) <==>
            b[0..2] == Le(2, 2) && b[2..10] == Le(nonceCounter, 8) && b[10..18] == Le(dataNonceCounter, 8) && b[18..22] == Le(count, 4)
  {
    hide Le;
    var p := Preamble(nonceCounter, dataNonceCounter, count);
    assert p[0..2] == Le(2, 2) && p[2..10] == Le(nonceCounter, 8) && p[10..18] == Le(dataNonceCounter, 8) && p[18..22] == Le(count, 4);
    assert b == b[0..2] + b[2..10] + b[10..18] + b[18..22];
  }

  lemma VersionBytes()
    ensures Le(2, 2) == [2, 0]
  {
    LittleEndian(2);
  }

  /** The map that the entries make up: under the hex text of each key that key's entry, and nothing else. */
  ghost predicate MapOf(files: Files, es: seq<RawEntry>) {
    && |files| == |es|
    && forall i :: 0 <= i < |es| ==> Hex(es[i].key) in files && files[Hex(es[i].key)] == es[i].entry
  }

  /** At most 1024 entries with distinct keys of 32 bytes, blobs of 40 to 295 and of 40 to 67108904 bytes. */
  predicate Admissible(es: seq<RawEntry>) {
    && |es| <= 1024
    && (forall i :: 0 <= i < |es| ==>
         |es[i].key| == 32 && 40 <= |es[i].entry.encryptedName| <= 295 && 40 <= |es[i].entry.encryptedData| <= 67108904)
    && forall i, j :: 0 <= i < j < |es| ==> es[i].key != es[j].key
  }

  ghost predicate Holding(b: Bytes, d: IndexData, es: seq<RawEntry>) {
    Admissible(es) && LaidOut(b, d.nonceCounter, d.dataNonceCounter, es) && MapOf(d.files, es)
  }

  lemma {:induction false} MapUnique(files: Files, es: seq<RawEntry>)
    requires DistinctKeys(es)
    ensures MapOf(files, es) <==> files == FilesOf(es)
  {
    hide Hex, FilesOf;
    FilesOfSize(es);
    forall i | 0 <= i < |es| ensures Hex(es[i].key) in FilesOf(es) && FilesOf(es)[Hex(es[i].key)] == es[i].entry {
      FilesOfLookup(es, i);
    }
    if MapOf(files, es) {
      forall k | k in FilesOf(es) ensures k in files && files[k] == FilesOf(es)[k] {
        FilesOfKeys(es, k);
      }
      SameKeys(FilesOf(es).Keys, files.Keys);
      assert |FilesOf(es).Keys| == |FilesOf(es)| && |files.Keys| == |files|;
    }
  }

  lemma SameKeys<T>(a: set<T>, b: set<T>)
    requires a <= b && |a| == |b|
    ensures a == b
  {
    assert b == a + (b - a);
  }

  /** An index is accepted, with this content, exactly when its bytes lay out entries that make the content up. */
  lemma DecodeLaidOut(b: Bytes, d: IndexData)
    ensures Decode(b) == Ok(d) <==> exists es :: Holding(b, d, es)
  {
    hide Decode, LaidOut, RawEncode, MapOf, FilesOf;
    DecodeExact(b, d);
    if es :| Encodes(b, d, es) {
      LayoutExact(b, d.nonceCounter, d.dataNonceCounter, es);
      MapUnique(d.files, es);
      assert Holding(b, d, es);
    }
    if es :| Holding(b, d, es) {
      LayoutExact(b, d.nonceCounter, d.dataNonceCounter, es);
      MapUnique(d.files, es);
      assert Encodes(b, d, es);
    }
  }

  /** What is written for a well-formed index: all of it, in the order of the walk. */
  lemma EncodeLaidOut(d: IndexData, order: seq<Bytes>)
    requires WellFormed(d.files) && Enumerates(order, d.files.Keys)
    ensures Encode(d, order).Ok?
    ensures exists es: seq<RawEntry> :: Holding(Encode(d, order).value, d, es) && |es| == |order|
              && forall i :: 0 <= i < |es| ==> Hex(es[i].key) == order[i]
  {
    hide Decode, LaidOut, RawEncode, MapOf, FilesOf, Hex;
    OrderedEntriesOk(d.files, order);
    OrderedEntriesFiles(d.files, order);
    var es := EntriesInOrder(d.files, order);
    LayoutExact(Encode(d, order).value, d.nonceCounter, d.dataNonceCounter, es);
    MapUnique(d.files, es);
    assert Holding(Encode(d, order).value, d, es);
  }
}
