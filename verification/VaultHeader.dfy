/** The vault header and its canonical JSON form: file prefix and AAD of the index. */
module VaultHeaders {
  import opened Binary
  import opened Constants
  import opened Decimal
  import opened Results

  type Salt = s: Bytes | |s| == SALT_LEN witness Zeros(16)

  datatype VaultHeader = VaultHeader(
    version: u16,
    kdfSalt: Salt,
    kdfIterations: u32,
    kdfMemoryCost: u32,
    keyLength: u64)

  /** `VaultHeader::generate` once the salt has been drawn. */
  function DefaultHeader(salt: Salt): VaultHeader {
    VaultHeader(VAULT_VERSION, salt, ARGON2_ITERATIONS, ARGON2_MEMORY_COST, KEY_LEN)
  }

  function Ascii(s: string): (b: Bytes)
    ensures |b| == |s|
  {
    seq(|s|, i requires 0 <= i < |s| => (s[i] as int % 256) as byte)
  }

  /** One element of a JSON number array, with the comma that follows it. */
  function PrintItem(x: byte, last: bool): Bytes {
    Dec(x as nat) + (if last then [] else Ascii(","))
  }

  function PrintElements(xs: Bytes): Bytes {
    if xs == [] then [] else PrintItem(xs[0], |xs| == 1) + PrintElements(xs[1..])
  }

  function TakeItem(b: Bytes, last: bool): Option<(byte, Bytes)> {
    var (x, b1) :- TakeNat(b);
    if x > 255 then None
    else if last then Some((x as byte, b1))
    else
      var b2 :- Expect(Ascii(","), b1);
      Some((x as byte, b2))
  }

  function TakeElements(n: nat, b: Bytes): Option<(Bytes, Bytes)> {
    if n == 0 then Some(([], b))
    else
      var (x, b1) :- TakeItem(b, n == 1);
      var (xs, b2) :- TakeElements(n - 1, b1);
      Some(([x] + xs, b2))
  }

  const VERSION_FIELD := "{\"version\":"
  const SALT_FIELD := ",\"kdf_salt\":["
  const ITERATIONS_FIELD := "],\"kdf_iterations\":"
  const MEMORY_FIELD := ",\"kdf_memory_cost\":"
  const KEY_LENGTH_FIELD := ",\"key_length\":"
  const END := "}"

  function PrintTail(h: VaultHeader): Bytes {
    Ascii(ITERATIONS_FIELD) + (Dec(h.kdfIterations) +
    (Ascii(MEMORY_FIELD) + (Dec(h.kdfMemoryCost) +
    (Ascii(KEY_LENGTH_FIELD) + (Dec(h.keyLength) + Ascii(END))))))
  }

  /** `to_aad_bytes`: compact JSON, fields in declaration order. */
  function PrintHeader(h: VaultHeader): Bytes {
    Ascii(VERSION_FIELD) + (Dec(h.version) +
    (Ascii(SALT_FIELD) + (PrintElements(h.kdfSalt) + PrintTail(h))))
  }

  function TakeTail(version: u16, salt: Salt, b: Bytes): Option<VaultHeader> {
    var b1 :- Expect(Ascii(ITERATIONS_FIELD), b);
    var (iterations, b2) :- TakeNat(b1);
    var b3 :- Expect(Ascii(MEMORY_FIELD), b2);
    var (memory, b4) :- TakeNat(b3);
    var b5 :- Expect(Ascii(KEY_LENGTH_FIELD), b4);
    var (keyLength, b6) :- TakeNat(b5);
    if iterations >= 0x1_0000_0000 || memory >= 0x1_0000_0000 || keyLength > U64_MAX || b6 != Ascii(END) then None
    else Some(VaultHeader(version, salt, iterations, memory, keyLength))
  }

  function TakeHeader(b: Bytes): Option<VaultHeader> {
    var b1 :- Expect(Ascii(VERSION_FIELD), b);
    var (version, b2) :- TakeNat(b1);
    var b3 :- Expect(Ascii(SALT_FIELD), b2);
    var (salt, b4) :- TakeElements(SALT_LEN, b3);
    if version >= 0x1_0000 || |salt| != SALT_LEN then None else TakeTail(version, salt, b4)
  }

  /** A reader of exactly the canonical form. */
  function ParseCanonical(b: Bytes): Option<VaultHeader> {
    var h :- TakeHeader(b);
    if PrintHeader(h) == b then Some(h) else None
  }

  lemma TakePrintedItem(x: byte, last: bool, rest: Bytes)
    requires last ==> NotDigitNext(rest)
    ensures TakeItem(PrintItem(x, last) + rest, last) == Some((x, rest))
  {
    var comma := Ascii(",");
    if last {
      assert PrintItem(x, last) + rest == Dec(x as nat) + rest;
      TakeDec(x as nat, rest);
    } else {
      assert PrintItem(x, last) + rest == Dec(x as nat) + (comma + rest);
      assert (comma + rest)[0] == ',' as int as byte;
      TakeDec(x as nat, comma + rest);
      ExpectLiteral(comma, rest);
    }
  }

  lemma {:induction false} TakePrinted(xs: Bytes, rest: Bytes)
    requires NotDigitNext(rest)
    ensures TakeElements(|xs|, PrintElements(xs) + rest) == Some((xs, rest))
  {
    hide TakeItem, PrintItem, NotDigitNext;
    if xs == [] {
      assert [] + rest == rest;
    } else {
      var tail := PrintElements(xs[1..]) + rest;
      TakePrinted(xs[1..], rest);
      assert |xs| == 1 ==> tail == rest;
      TakePrintedItem(xs[0], |xs| == 1, tail);
      assert PrintElements(xs) + rest == PrintItem(xs[0], |xs| == 1) + tail;
      assert [xs[0]] + xs[1..] == xs;
    }
  }

  lemma TakePrintedTail(h: VaultHeader)
    ensures TakeTail(h.version, h.kdfSalt, PrintTail(h)) == Some(h)
  {
    var t5 := Dec(h.keyLength) + Ascii(END);
    var t4 := Ascii(KEY_LENGTH_FIELD) + t5;
    var t3 := Dec(h.kdfMemoryCost) + t4;
    var t2 := Ascii(MEMORY_FIELD) + t3;
    var t1 := Dec(h.kdfIterations) + t2;
    ExpectLiteral(Ascii(ITERATIONS_FIELD), t1);
    assert t2[0] == ',' as int as byte;
    TakeDec(h.kdfIterations, t2);
    ExpectLiteral(Ascii(MEMORY_FIELD), t3);
    assert t4[0] == ',' as int as byte;
    TakeDec(h.kdfMemoryCost, t4);
    ExpectLiteral(Ascii(KEY_LENGTH_FIELD), t5);
    assert Ascii(END)[0] == '}' as int as byte;
    TakeDec(h.keyLength, Ascii(END));
  }

  lemma TakePrintedHeader(h: VaultHeader)
    ensures TakeHeader(PrintHeader(h)) == Some(h)
  {
    var t3 := PrintElements(h.kdfSalt) + PrintTail(h);
    var t2 := Ascii(SALT_FIELD) + t3;
    var t1 := Dec(h.version) + t2;
    ExpectLiteral(Ascii(VERSION_FIELD), t1);
    assert t2[0] == ',' as int as byte;
    TakeDec(h.version, t2);
    ExpectLiteral(Ascii(SALT_FIELD), t3);
    assert PrintTail(h)[0] == ']' as int as byte;
    TakePrinted(h.kdfSalt, PrintTail(h));
    TakePrintedTail(h);
  }

  /** The canonical reader accepts exactly the printed headers and recovers every field. */
  lemma CanonicalExact(b: Bytes, h: VaultHeader)
    ensures ParseCanonical(b) == Some(h) <==> b == PrintHeader(h)
  {
    TakePrintedHeader(h);
  }

  lemma PrintInjective(g: VaultHeader, h: VaultHeader)
    requires PrintHeader(g) == PrintHeader(h)
    ensures g == h
  {
    TakePrintedHeader(g);
    TakePrintedHeader(h);
  }

  lemma {:induction false} ElementsLength(xs: Bytes)
    requires xs != []
    ensures |PrintElements(xs)| <= 4 * |xs| - 1
  {
    assert Pow10(3) == 1000 by { assert Pow10(1) == 10 * Pow10(0); }
    DecLength(xs[0] as nat, 3);
    if |xs| > 1 {
      ElementsLength(xs[1..]);
    }
  }

  lemma NumberLengths(h: VaultHeader)
    ensures |Dec(h.version)| <= 5 && |Dec(h.kdfIterations)| <= 10
    ensures |Dec(h.kdfMemoryCost)| <= 10 && |Dec(h.keyLength)| <= 20
  {
    assert Pow10(5) == 100_000 by { assert Pow10(2) == 100; assert Pow10(4) == 10_000; }
    assert Pow10(10) == 10_000_000_000 by {
      assert Pow10(6) == 1_000_000; assert Pow10(8) == 100_000_000;
    }
    assert Pow10(20) == 100_000_000_000_000_000_000 by {
      assert Pow10(12) == 1_000_000_000_000; assert Pow10(14) == 100_000_000_000_000;
      assert Pow10(16) == 10_000_000_000_000_000; assert Pow10(18) == 1_000_000_000_000_000_000;
    }
    DecLength(h.version, 5);
    DecLength(h.kdfIterations, 10);
    DecLength(h.kdfMemoryCost, 10);
    DecLength(h.keyLength, 20);
  }

  /** Any header, whatever its field values, prints to at most 185 bytes. */
  lemma HeaderLengthBound(h: VaultHeader)
    ensures |PrintHeader(h)| <= 185
  {
    NumberLengths(h);
    ElementsLength(h.kdfSalt);
  }

  /** `validate_header`. */
  predicate ValidHeader(h: VaultHeader) {
    && (h.version == LEGACY_VAULT_VERSION_1 || h.version == VAULT_VERSION)
    && MIN_KDF_MEMORY <= h.kdfMemoryCost <= MAX_KDF_MEMORY
    && MIN_KDF_ITERATIONS <= h.kdfIterations <= MAX_KDF_ITERATIONS
    && h.keyLength == KEY_LEN
  }
}
