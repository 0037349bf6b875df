/** The plaintext framing of a vault file. */
module Envelopes {
  import opened Binary
  import opened Constants
  import opened Externals
  import opened Results
  import opened VaultHeaders

  datatype Envelope = Envelope(header: VaultHeader, nonce: Nonce, encryptedIndex: Bytes)

  const SKIPPED_COUNTER_LEN := 8

  /** What `export` writes: header length, header, nonce, sealed index. */
  function Frame(h: VaultHeader, nonce: Nonce, rest: Bytes): Bytes {
    Le(|PrintHeader(h)|, 4) + PrintHeader(h) + nonce + rest
  }

  /** The bytes between the nonce and the sealed index, by format version. */
  function SkippedLen(h: VaultHeader): nat {
    if h.version == LEGACY_VAULT_VERSION_1 then SKIPPED_COUNTER_LEN else 0
  }

  /** `parse_envelope`. */
  function ParseEnvelope(lib: Library, data: Bytes): Result<Envelope> {
    if |data| > MAX_VAULT_FILE_SIZE || |data| < 4 then Err(CorruptedData)
    else
      var headerLen := FromLe(data[..4]);
      if headerLen > MAX_HEADER_JSON_LEN || |data| < 4 + headerLen + NONCE_LEN then Err(CorruptedData)
      else
        var headerBytes := data[4..4 + headerLen];
        var header :- lib.parseHeader(headerBytes).OkOr(CorruptedData);
        if !ValidHeader(header) || headerBytes != PrintHeader(header) then Err(CorruptedData)
        else
          var nonce := data[4 + headerLen..4 + headerLen + NONCE_LEN];
          var start := 4 + headerLen + NONCE_LEN + SkippedLen(header);
          if |data| < start then Err(CorruptedData)
          else Ok(Envelope(header, nonce, data[start..]))
  }

  lemma FrameParts(h: VaultHeader, nonce: Nonce, rest: Bytes)
    ensures var n := |PrintHeader(h)|; var data := Frame(h, nonce, rest);
      && FromLe(data[..4]) == n && data[4..4 + n] == PrintHeader(h)
      && data[4 + n..4 + n + NONCE_LEN] == nonce && data[4 + n + NONCE_LEN..] == rest
      && |data| == 4 + n + NONCE_LEN + |rest|
  {
    hide Le, FromLe, PrintHeader;
    var n := |PrintHeader(h)|;
    var data := Frame(h, nonce, rest);
    HeaderLengthBound(h);
    DecodeLeU32(n);
    assert data[..4] == Le(n, 4);
  }

  lemma ParseFrame(lib: Library, h: VaultHeader, nonce: Nonce, skipped: Bytes, rest: Bytes)
    requires lib.HeaderLaw()
    requires ValidHeader(h) && |skipped| == SkippedLen(h)
    requires |Frame(h, nonce, skipped + rest)| <= MAX_VAULT_FILE_SIZE
    ensures ParseEnvelope(lib, Frame(h, nonce, skipped + rest)) == Ok(Envelope(h, nonce, rest))
  {
    hide Le, FromLe, PrintHeader;
    var data := Frame(h, nonce, skipped + rest);
    var n := |PrintHeader(h)|;
    HeaderLengthBound(h);
    FrameParts(h, nonce, skipped + rest);
    assert lib.parseHeader(PrintHeader(h)) == Some(h);
    assert data[4 + n + NONCE_LEN + |skipped|..] == data[4 + n + NONCE_LEN..][|skipped|..] == rest;
  }

  lemma ParsedFrame(lib: Library, data: Bytes)
    requires ParseEnvelope(lib, data).Ok?
    ensures var e := ParseEnvelope(lib, data).value;
      && ValidHeader(e.header) && |data| <= MAX_VAULT_FILE_SIZE
      && exists skipped: Bytes :: |skipped| == SkippedLen(e.header)
           && data == Frame(e.header, e.nonce, skipped + e.encryptedIndex)
  {
    hide Le, FromLe, PrintHeader;
    var e := ParseEnvelope(lib, data).value;
    var n := FromLe(data[..4]);
    EncodeLe(data[..4]);
    assert |PrintHeader(e.header)| == n;
    var a := 4 + n + NONCE_LEN;
    var skipped := data[a..a + SkippedLen(e.header)];
    JoinSlices(data, 4, 4 + n);
    JoinSlices(data, 4 + n, a);
    assert data[a..] == skipped + e.encryptedIndex;
    assert data == data[..a] + data[a..];
  }

  /**
   * Bytes are accepted exactly when they frame a valid header within the size cap, and the parts are
   * the ones framed; the bytes that version 1 skips may be anything.
   */
  lemma EnvelopeExact(lib: Library, data: Bytes, e: Envelope)
    requires lib.HeaderLaw()
    ensures ParseEnvelope(lib, data) == Ok(e) <==>
      && ValidHeader(e.header) && |data| <= MAX_VAULT_FILE_SIZE
      && exists skipped: Bytes :: |skipped| == SkippedLen(e.header) && data == Frame(e.header, e.nonce, skipped + e.encryptedIndex)
  {
    if ParseEnvelope(lib, data) == Ok(e) {
      ParsedFrame(lib, data);
    }
    if ValidHeader(e.header) && |data| <= MAX_VAULT_FILE_SIZE {
      if skipped: Bytes :| |skipped| == SkippedLen(e.header) && data == Frame(e.header, e.nonce, skipped + e.encryptedIndex) {
        ParseFrame(lib, e.header, e.nonce, skipped, e.encryptedIndex);
      }
    }
  }

  /** Which JSON parser is used makes no difference, as long as it reads canonical headers. */
  lemma ParserIrrelevant(a: Library, b: Library, data: Bytes)
    requires a.HeaderLaw() && b.HeaderLaw()
    ensures ParseEnvelope(a, data) == ParseEnvelope(b, data)
  {
    hide ParseEnvelope;
    if ParseEnvelope(a, data).Ok? {
      EnvelopeExact(a, data, ParseEnvelope(a, data).value);
      EnvelopeExact(b, data, ParseEnvelope(a, data).value);
    } else if ParseEnvelope(b, data).Ok? {
      EnvelopeExact(b, data, ParseEnvelope(b, data).value);
      EnvelopeExact(a, data, ParseEnvelope(b, data).value);
    } else {
      EnvelopeErrors(a, data);
      EnvelopeErrors(b, data);
    }
  }

  lemma EnvelopeErrors(lib: Library, data: Bytes)
    ensures ParseEnvelope(lib, data).Err? ==> ParseEnvelope(lib, data) == Err(CorruptedData)
  {
  }
}
