# memseal, verified

memseal keeps named secrets in a vault that lives in memory and travels as one byte string. This project models
its three interlocking parts and proves that they do together what the design promises.

* **The index codec** (`HexKey.dfy`, `IndexCodec.dfy`, `LegacyIndex.dfy`): the length-prefixed little-endian encoder,
  the bounds-checked `Reader`, the decoder with its fill loop, and the conversion of a version 1 index.
* **The vault** (`VaultIndex.dfy`, `VaultModel.dfy`, `Vault.dfy`): create, open, store, retrieve, remove, export,
  change of password and the re-keying loop.
* **The envelope** (`VaultHeader.dfy`, `Decimal.dfy`, `Envelope.dfy`): the canonical JSON header and the file framing
  of both format versions.

`Layout.dfy` and `Concrete.dfy` say the same from outside: what stands at each offset of a file, and what each operation
answers and changes, in terms of the library's functions, the drawn values and plain numbers alone.

`Invariants.dfy`, `Access.dfy`, `Passwords.dfy`, `Rekeying.dfy`, `RoundTrip.dfy`, `Runs.dfy` and `Freshness.dfy` hold
the theorems, and `Consistency.dfy` takes a toy library through them: their hypotheses about runs can be met, and the
failures these exclude do occur without them. `Externals.dfy` is the boundary to library code; `Binary.dfy`,
`Enumerations.dfy`, `Results.dfy` and `Constants.dfy` are the ground they stand on.

## How it is modelled

* Code that updates fields is a class here: `Reader`, `VaultIndex` and `Vault`, each method proved equal to a function
  of the old contents (`VaultModel`, the `After...` functions of `VaultIndexes`). The theorems are about those functions.
* What the environment decides is an argument: each random draw is an `Option` (`None` when the source fails), each
  locked allocation a flag, and the iteration order of a hash map a `Walk`, any function that enumerates a set. Every
  theorem holds for all of them. A re-keying's draws are a finite tape; past its end the random source has failed.
* The libraries are a record of functions, `Library`. Three laws are assumed of it (`Lawful`): sealing a plaintext of
  at most 2^38 - 64 bytes (section 2.8 of RFC 8439) succeeds, adds 16 bytes and opens again; opening takes 16 bytes
  away; the JSON parser reads back printed headers. KDF, HKDF and HMAC are arbitrary partial functions.
* HMACs may collide, so what depends on their not colliding is stated as an equivalence: see the rows of
  `StoreMeaning`, `RetrieveMeaning`, `RemoveMeaning` and `RekeyMeaning`. Over a run the condition is a hypothesis on
  the names used and the keys put in force (`LegalRun`), and `ClashHappens` shows that it cannot be dropped.
* A run may open files. For `RunRefines` a file that opens must be one the run exported, under the password it was
  exported with; `RunExportOpens` makes no such assumption and covers any bytes of either version.
* Entry keys, names and texts are byte sequences; `usize` has 64 bits.

## Where code and documents differ

* The comment at src/vault/vault_index.rs:205-208 says the counter check on open keeps a later `store` from reissuing
  a pair. It does so for entries still stored; after going back to an older export a pair can be issued again.
  `HistoryExact` says exactly when for a counter, over any history; `ForkExact` says exactly when for a pair, between two
  continuations of one export; `ForkReuses` and `ForkHappens` show it.
* DESIGN.md:547-549 says `open` sets the header's version to 2 once a version 1 file has authenticated. The code
  builds a whole new header with a fresh salt, and the model follows the code.
* The table at DESIGN.md:365-379 names `Vault::create` for the minimum password length and `Vault::load` for the file
  size on reading. The code also checks the new password of `change_password` and the size in `parse_envelope`, and
  `open` accepts passwords of any length; so does the model.

## Model

| member | source | states |
|---|---|---|
| HexKey.KeyToHex | src/vault/index_codec.rs:51-57 | The loop prints two lower-case digits for each byte, in order, for a key of any length. |
| HexKey.HexToKey | src/vault/index_codec.rs:61-73 | The loop over digit pairs, filling a 32-byte buffer, returns the key the text stands for, or none on a wrong length or a digit it does not know. |
| HexKey.KeyTextExact | src/vault/index_codec.rs:51-81 | A text is accepted, with key k, exactly when k has 32 bytes and the text is what is printed for k: the two conversions are mutually inverse. |
| HexKey.UnhexAccepts | src/vault/index_codec.rs:75-81 | Of the texts of even length exactly those made of 0-9 and a-f are accepted; upper case is not. |
| HexKey.HexInjective | src/vault/index_codec.rs:250-259 | Equal texts come from equal keys, so the map's duplicate test on hex is a duplicate test on raw keys. |
| IndexCodec.EncodeIndex | src/vault/index_codec.rs:117-153 | For every walk order, the output is the preamble followed by the entries in that order, its length is the precomputed total, and a bad key or an oversized blob is a serialization error. |
| IndexCodec.Reader.Take | src/vault/index_codec.rs:166-178 | Taking n bytes yields the next n and advances by n, or fails and stays put when fewer are left; the position never passes the end. |
| IndexCodec.Reader.Int | src/vault/index_codec.rs:180-190 | A little-endian integer of the given width is read under the same rules as the bytes it is made of. |
| IndexCodec.ReadEntry | src/vault/index_codec.rs:228-254 | One pass of the loop body consumes exactly one entry of the format, or fails exactly when the bytes left do not start with one; the blob bytes it copies, also when it fails, are at most what the reader advances. |
| IndexCodec.ReadEntries | src/vault/index_codec.rs:227-260 | The fill loop returns the map of all declared entries when their keys are distinct, and rejects at the first duplicate; the blob bytes copied are those of the entries reached, at most what the reader advances. |
| IndexCodec.DecodeIndex | src/vault/index_codec.rs:199-274 | The cursor-driven decoder computes the verdict and the data of the declarative decoder for every input, and reserves and copies exactly what `Reserved` and `Copied` say. |
| IndexCodec.BlobExact | src/vault/index_codec.rs:232-248 | A length-prefixed blob is read from the front of some bytes exactly when its length is in the window and the bytes are its encoding followed by the rest. |
| IndexCodec.ParseEncoded | src/vault/index_codec.rs:143-148 | Reading back an encoded entry, whatever follows it, recovers the entry and what follows. |
| IndexCodec.ParseSound | src/vault/index_codec.rs:229-254 | Bytes from which an entry was read are that entry's encoding followed by what is left. |
| IndexCodec.DecodeComplete | src/vault/index_codec.rs:199-274 | Every list of at most 1024 entries with distinct 32-byte keys and blob lengths in their windows is accepted, with its counters and its map. |
| IndexCodec.DecodeSound | src/vault/index_codec.rs:199-274 | An accepted input is byte for byte the encoding of the entries read from it, in the order read, and those entries meet every bound. |
| IndexCodec.DecodeExact | src/vault/index_codec.rs:117-274 | Bytes decode to given data if and only if they encode some admissible list of entries with those counters and that map. |
| IndexCodec.DecodeEncode | src/vault/index_codec.rs:117-274 | For every well-formed index and every walk order, encoding succeeds and decoding gives back the counters and the map. |
| IndexCodec.EarlyCheckHarmless | src/vault/index_codec.rs:219-225 | Comparing the entry count with the bytes left before reading any entry changes neither verdict nor result. |
| IndexCodec.PrefixFree | src/vault/index_codec.rs:166-178 | No accepted input is a proper prefix of another: every truncation and every extension of an accepted input is rejected. |
| IndexCodec.CapacityBounded | src/vault/index_codec.rs:195-227 | On every input, accepted or rejected, the entries reserved times 128 are at most the bytes after the preamble and no more blob bytes are copied than the input has; an accepted input fills exactly what was reserved and copies all but 22 bytes and 48 for each entry. |
| IndexCodec.UncheckedReserves | src/vault/index_codec.rs:219-227 | Without the early check a bare preamble of 22 bytes would reserve any declared count up to 1024 before being rejected; with it nothing is reserved. |
| IndexCodec.DecodedWellFormed | src/vault/index_codec.rs:199-274 | Decoded maps have at most 1024 entries, canonical 64-digit keys and blob lengths in their windows. |
| IndexCodec.TotalFits | src/vault/index_codec.rs:121-128 | The precomputed output size of a well-formed index, and so every partial sum, fits 64 bits, and the index is short enough for the AEAD. |
| LegacyIndexes.DecodeIndexV1 | src/vault/index_codec.rs:317-361 | The conversion loop over any walk order accepts exactly the documents of version 1 with at most 1024 entries whose entries other than padding have 64-digit keys and both blobs within bounds, and returns their content. |
| LegacyIndexes.LegacyExact | src/vault/index_codec.rs:317-361 | Acceptance of a version 1 index, with every number written out: version 1, 1024 entries with padding counted, keys of 64 digits, names of 40 to 295 and data of 40 to 67108904 bytes; padding is never a reason to reject. The content is the entries that are not padding. |
| LegacyIndexes.LegacyWellFormed | src/vault/index_codec.rs:331-361 | A converted version 1 index meets the current decoder's guarantees and holds exactly the entries not marked dummy, with their blobs and counters. |
| LegacyIndexes.LegacyReencodes | src/vault/index_codec.rs:117-362 | A converted version 1 index can be written in version 2, and decoding that gives it back. |
| VaultHeaders.CanonicalExact | src/vault/vault_header.rs:16-46 | A reader of the canonical JSON accepts exactly the bytes printed for some header and recovers every field. |
| VaultHeaders.TakePrinted | src/vault/vault_header.rs:18 | The salt's number array reads back as the salt, whatever follows it. |
| VaultHeaders.PrintInjective | src/vault/vault_header.rs:42-46 | Distinct headers serialize to distinct AAD bytes. |
| VaultHeaders.HeaderLengthBound | src/vault/vault_header.rs:16-46 | Any header at all prints to at most 185 bytes, under the 4096-byte cap. |
| Layouts.LittleEndian | src/vault/index_codec.rs:130-148 | Integers of 2, 4 and 8 bytes stand low byte first. |
| Layouts.HexText | src/vault/index_codec.rs:51-57 | Byte i of a key is the digits of its high and of its low half, in this order, from 0123456789abcdef. |
| Layouts.DecimalText | src/vault/vault_header.rs:16-46 | A number prints as its decimal digits, most significant first, with no leading zero. |
| Layouts.ElementsText | src/vault/vault_header.rs:18 | The salt prints as its bytes in decimal with commas between them. |
| Layouts.AsciiText | src/vault/vault_header.rs:16-46 | Each character of the literal texts stands as the byte of its code. |
| Layouts.HeaderText | src/vault/vault_header.rs:16-46 | The header is the compact JSON text of its five fields, names written out, in declaration order. |
| Layouts.LayoutExact | src/vault/index_codec.rs:117-153 | Version, both counters, count and every field of every entry stand at their byte offsets if and only if the bytes are the encoding. |
| Layouts.DecodeLaidOut | src/vault/index_codec.rs:199-274 | An index is accepted with given content if and only if its bytes lay out at most 1024 entries with distinct 32-byte keys and blobs within bounds, and the map holds under the hex text of each key that entry and nothing else. |
| Layouts.EncodeLaidOut | src/vault/index_codec.rs:117-153 | What is written for an index lays out all its entries in walk order. |
| Envelopes.FrameParts | src/vault/facade.rs:367-374 | The length prefix of an export is the header's true length (the cast never truncates) and the parts lie where the layout says. |
| Envelopes.ParseFrame | src/vault/facade.rs:547-621 | A framed valid header within the size cap is accepted and its parts recovered; for version 1 any 8 bytes may stand in the skipped place. |
| Envelopes.ParsedFrame | src/vault/facade.rs:547-621 | Accepted bytes are the framing of a valid header, within the size cap. |
| Envelopes.EnvelopeExact | src/vault/facade.rs:547-621 | Bytes are accepted with given parts if and only if they frame exactly those parts, the header is valid and the size is within the cap. |
| Envelopes.ParserIrrelevant | src/vault/facade.rs:581-596 | Two JSON parsers that both read canonical headers give the same verdict and parts on every input: the canonical-form check leaves no freedom. |
| Externals.LawsConsistent | src/crypto/aad_aead.rs:18-66 | The laws assumed of the libraries (sealing adds 16 bytes and opens again, opening removes 16, printed headers parse) hold together of a toy library. |
| VaultIndexes.VaultIndex.FromMasterKey | src/vault/vault_index.rs:171-187 | A new index is empty, with both counters at zero and the derived keys, or the first failing step is reported. |
| VaultIndexes.VaultIndex.MaxCounter | src/vault/vault_index.rs:209 | The maximum over the stored counters: attained by some entry, exceeded by none, absent only for an empty map. |
| VaultIndexes.VaultIndex.FromSubkeysAndData | src/vault/vault_index.rs:192-226 | The index is rebuilt field by field exactly when its counter exceeds every stored counter and memory can be locked. |
| VaultIndexes.VaultIndex.AdvanceNonce | src/vault/vault_index.rs:95-106 | The counter moves up by one first; the nonce is replaced only if randomness is available; overflow changes nothing. |
| VaultIndexes.VaultIndex.NextDataNonceCounter | src/vault/vault_index.rs:109-116 | The current counter is returned and consumed; overflow changes nothing. |
| VaultIndexes.VaultIndex.HmacKeyForName | src/vault/vault_index.rs:123-131 | The map key of a name is the hex text of the HMAC of the name under this index's HMAC subkey; it fails only if that HMAC does. |
| VaultIndexes.VaultIndex.InsertByKey | src/vault/vault_index.rs:136-155 | An entry replaces the one under its key, even at the cap; a new key is refused at 1024 entries. |
| VaultIndexes.VaultIndex.RemoveByKey | src/vault/vault_index.rs:164-168 | The entry is removed and returned; other entries stay. |
| Vaults.Vault.Create | src/vault/facade.rs:76-82 | Creation yields the specified vault or error; the vault has version 2, the drawn salt, 4 passes, 131072 KiB and the keys of the password, and exactly the passwords under 8 bytes are too short. |
| Vaults.Vault.Open | src/vault/facade.rs:109-162 | Opening yields the specified vault or error for any bytes of either version; a version 1 vault is re-keyed in place before it is returned. |
| Vaults.Vault.Store | src/vault/facade.rs:192-247 | State and result are those of the specification, including the counter consumed by a store that fails later; the new entry's blobs are sealed each under its own drawn nonce. |
| Vaults.Vault.Retrieve | src/vault/facade.rs:309-325 | The answer is that of the specification and nothing changes; it is none exactly when the hex HMAC of the name is not in the map. |
| Vaults.Vault.Remove | src/vault/facade.rs:330-333 | State and result are those of the specification. |
| Vaults.Vault.Export | src/vault/facade.rs:349-379 | State and file are those of the specification, for every walk order and every failure. |
| Vaults.Vault.ChangePassword | src/vault/facade.rs:454-462 | New password checked, current one verified, then re-keyed; state and result are those of the specification, and a wrong password is reported exactly when the current one derives keys and the encryption key differs from the one in memory. |
| Vaults.Vault.Rekey | src/vault/facade.rs:468-507 | The loop rebuilds the vault beside the old one; wherever it fails, header, keys, counters and entries are the old ones. |
| Invariants.SecretsExact | src/vault/vault_index.rs:118-131 | A name is present exactly when the entry under its HMAC decrypts to that name, and its secret is that entry's plaintext. |
| Invariants.SealedEntry | src/vault/facade.rs:214-243 | Sealing an admissible entry fails only when a nonce cannot be drawn, never in the AEAD; the blobs fit the decoders' windows and open to name and data. |
| Invariants.WindowsExact | src/vault/index_codec.rs:22-31 | The pairs of blob lengths that stores can produce are exactly the pairs the decoders accept. |
| Invariants.GenuineWithinLimits | src/vault/index_codec.rs:84-99 | A decoded entry that decrypts has a name and data that `store` would accept. |
| Invariants.StoreEffect | src/vault/facade.rs:192-247 | When exactly a store succeeds; success adds one entry under the name's key with the consumed counter, failure leaves every ciphertext; the counter never moves back. |
| Invariants.StoreSound | src/vault/vault_index.rs:136-155 | After any store, failing or not, the cap, the key form, the size windows and the counter's lead over every entry still hold. |
| Invariants.StoreGenuine | src/vault/facade.rs:208-246 | After any store every entry still decrypts to a name that belongs under its key. |
| Invariants.StoreMeaning | src/vault/facade.rs:185-247 | A successful store is the map update if and only if no other stored name has the same HMAC; a failed one changes no secret. |
| Access.RetrieveMeaning | src/vault/facade.rs:313-325 | Retrieve is the map's lookup if and only if no other stored name has the same HMAC; it fails only if the HMAC fails. |
| Access.RemoveMeaning | src/vault/facade.rs:327-333 | Remove deletes the name and reports its presence if and only if no other stored name has the same HMAC; failing, it changes nothing. |
| Access.RemoveSound | src/vault/vault_index.rs:164-168 | Removal keeps the structural invariant. |
| Access.RemoveGenuine | src/vault/vault_index.rs:164-168 | Removal keeps every remaining entry genuine. |
| Passwords.CreateExact | src/vault/facade.rs:73-82 | Creation succeeds if and only if the password has 8 bytes, randomness and locking work and the keys derive; the vault is then empty, sound and keyed by the password. |
| Passwords.ChangePasswordGuarded | src/vault/facade.rs:441-462 | A change goes through only for a password that derives the key in memory and a new one of 8 bytes; a wrong one is reported as such, and any failure leaves the whole vault as it was. |
| Passwords.InvalidPasswordExact | src/vault/facade.rs:100-151 | Open reports a wrong password if and only if the envelope parses, the keys derive and the sealed index does not authenticate. |
| Concrete.KeysExact | src/vault/facade.rs:721-760 | The keys of a password are the two HKDF expansions, under the salt, of Argon2i (version 1) or Argon2id (any other) of that password with the header's salt, passes and memory; the failure is the KDF's or HKDF's. |
| Concrete.VaultKeys | src/vault/facade.rs:76-507 | A vault that was created, opened or re-keyed carries exactly the keys so computed from its password and its header. |
| Concrete.NewVaultExact | src/vault/facade.rs:469-478 | A vault is set up exactly as version 2, drawn salt, 4 passes, 131072 KiB, 32-byte keys, drawn nonce, zero counters, no entries and the keys of the password. |
| Concrete.CreateConcrete | src/vault/facade.rs:76-82 | Create gives a vault if and only if it is the one so set up and the password has at least 8 bytes. |
| Concrete.CreateRefused | src/vault/facade.rs:76-82 | Exactly the passwords under 8 bytes are too short; any other refusal names the first step that failed. |
| Concrete.StoreConcrete | src/vault/facade.rs:192-247 | When a store succeeds, in numbers; it changes the map at the hex HMAC of the name alone, each blob being its own drawn nonce and what is sealed under it with key text and counter as associated data; when it fails, why, and what is left. |
| Concrete.RetrieveConcrete | src/vault/facade.rs:309-325 | None exactly when the hex HMAC of the name is not a key; otherwise the data blob there, opened under its nonce, key text and counter, or the failure of that. |
| Concrete.RemoveConcrete | src/vault/facade.rs:330-333 | Exactly the entry under the hex HMAC of the name goes; the answer is whether it was there. |
| Concrete.DecryptConcrete | src/vault/facade.rs:484-500 | An entry yields a name and a secret exactly when both blobs open under their nonces, key text and counter and the name is text. |
| Concrete.ExportConcrete | src/vault/facade.rs:349-379 | The counter moves first, then the nonce is replaced; the file is length, header, nonce and the sealing, under that nonce and bound to the header, of an index laid out from the vault; it is refused exactly above 256 MiB. |
| Concrete.EnvelopeConcrete | src/vault/facade.rs:547-655 | Bytes parse into given parts if and only if they frame them, with 8 skipped bytes in version 1 and none in version 2, memory is 32768 to 262144, passes 3 to 10 and the key length 32. |
| Concrete.OpenConcrete | src/vault/facade.rs:109-162 | Open reads a file into a vault if and only if the bytes frame its header and nonce and what they seal opens under the password's keys to its content with the counter ahead; version 1 is then re-keyed. |
| Concrete.OpenRefused | src/vault/facade.rs:109-162 | Which error open gives for a file it does not read: the first check that fails, in order; what is not a file is corrupted data. |
| Concrete.LegacyOpens | src/vault/facade.rs:109-162 | Every version 1 file sealed from such a document with the counter ahead, whatever the 8 skipped bytes, is read, with exactly the entries that are not padding. |
| Concrete.ChangePasswordConcrete | src/vault/facade.rs:454-529 | Every outcome of a change of password: short new password, no keys for the current one, wrong password if and only if its encryption key is not the one in memory, and otherwise the re-keying; any failure leaves the vault. |
| Concrete.StepResealed | src/vault/facade.rs:484-500 | One step of the loop seals its entry afresh under that step's own nonces and the new key of its name. |
| Concrete.RekeyConcrete | src/vault/facade.rs:468-507 | Re-keying any well-formed index, genuine or not: success if and only if set-up and every step work, the error being that of the first step that fails; every entry is sealed under the nonces of its own step, and where names share an HMAC the last one walked is kept. |
| Rekeying.NewVaultReady | src/vault/facade.rs:469-478 | A vault set up for create or re-keying is sound, empty, keyed by the password, with counters at zero, or the error is environmental. |
| Rekeying.ReencryptStep | src/vault/facade.rs:484-500 | From a genuine vault one iteration succeeds exactly when it gets an HMAC and two nonces: no limit, cap, overflow, UTF-8 or AEAD failure can stop it. |
| Rekeying.CarryAll | src/vault/facade.rs:484-500 | Through the whole loop, for any walk order, entry i sits under its new key with counter i and unchanged data, and nothing else is present. |
| Rekeying.RekeyExact | src/vault/facade.rs:468-507 | Re-keying succeeds if and only if a new vault can be set up and every entry gets its HMAC and nonces; otherwise the error is one of those. |
| Rekeying.RekeyMeaning | src/vault/facade.rs:468-507 | The re-keyed vault holds the same names and secrets if and only if the names do not collide under the new key; then no entry is lost or merged and the counters are 0 to n-1, each once. The next counter is n. |
| RoundTrip.SerializeExact | src/vault/facade.rs:349-378 | A well-formed index serializes if and only if the file fits 256 MiB; the only error is the size. |
| RoundTrip.ExportExact | src/vault/facade.rs:335-378 | Export succeeds if and only if the counter can advance, a nonce is drawn and 66 + header + the sum over secrets of 128 + name + data is at most 256 MiB, and that sum is the file's length. |
| RoundTrip.ExportAnswer | src/vault/facade.rs:349-378 | Which error export gives and when, in the order of its checks: counter, randomness, size; otherwise a file of exactly the computed size. |
| RoundTrip.ExportEffect | src/vault/facade.rs:349-379 | Export changes only nonce and nonce counter, whether it fails or not, and the counter never moves back. |
| RoundTrip.ExportOpens | src/vault/facade.rs:109-379 | Whatever export returns, open with the vault's password passes every check and gives the same header, keys, nonce, counters and entries, unless memory cannot be locked. |
| RoundTrip.RekeyedSound | src/vault/facade.rs:468-507 | Re-keying any vault, even one with foreign entries, yields if it succeeds a sound vault whose entries all decrypt under the new password's keys. |
| RoundTrip.OpenSound | src/vault/facade.rs:109-162 | Any bytes that open accepts, of either version, give a version 2 vault meeting the structural invariant, keyed by the password. |
| RoundTrip.LegacyStored | src/vault/facade.rs:138-151 | The entries of an opened version 1 file are those the document in that very file does not mark dummy, each with its own blobs and counter, and the two vault counters are the document's. |
| RoundTrip.StoredSecrets | src/vault/index_codec.rs:331-361 | The secrets of the stored index are exactly the name and secret pairs that the document's real entries decrypt to. |
| RoundTrip.LegacyMigration | src/vault/facade.rs:138-161 | The vault that open makes of a version 1 file with genuine entries holds exactly the names and secrets of the real entries of the document in that file if and only if those names do not collide under the new key; failures are environmental. |
| Runs.StepRefines | src/vault/facade.rs:76-507 | One call of any kind keeps the vault and the plain map in step, and its answer, success or error, is the one the plain machine prescribes: limits, room, file size and password included. Of a re-keying that gets no key, nonce or HMAC it says that this is why it failed. |
| Runs.RunRefines | src/vault/facade.rs:76-507 | After any sequence of calls, decrypting the index gives exactly the map a plain name-to-secret machine holds, and every answer on the way is the one that machine prescribes. |
| Runs.CreatedRunRefines | src/vault/facade.rs:76-507 | The same for runs that start with create, from the empty map. |
| Runs.StoreAnswered | src/vault/facade.rs:192-247 | The exact answer to a store from the plain map: the two length limits, the HMAC, the counter, the nonces, then 1024 names without this one; in every other case it succeeds. |
| Runs.SecretsSize | src/vault/vault_index.rs:48-59 | A vault has as many secrets as entries. |
| Runs.StepSound | src/vault/facade.rs:76-507 | Any call with any arguments, foreign files included, keeps the structural invariant and the tie between keys and password. |
| Runs.RunExportOpens | src/vault/facade.rs:109-507 | From any vault reached by any calls whatsoever, a successful export opens with the password in force to the same vault. |
| Freshness.HistoryExact | src/vault/vault_index.rs:109-216 | Over any history that may open any of its own exports at any time, no counter is issued twice under one generation if and only if each store that takes one finds the vault's counter at the mark, one past the highest issued under that generation. |
| Freshness.CreatedHistoryExact | src/vault/vault_index.rs:109-216 | The same for histories that start with create. |
| Freshness.MarkStore | src/vault/vault_index.rs:109-116 | Issuing a counter keeps the mark exact and reuses one if and only if it lies below the mark. |
| Freshness.MarkGeneration | src/vault/facade.rs:484-500 | A re-keying issues the counters from 0 on under a new generation, and so reuses none. |
| Freshness.LinearStep | src/vault/vault_index.rs:200-216 | In a linear history every call finds the counter at the mark, and so does the vault in the latest export. |
| Freshness.LinearFresh | src/vault/vault_index.rs:109-116 | Along a linear history no counter is issued twice under one generation of keys, every stored entry carries an issued pair and the counter stays at the mark. |
| Freshness.CreatedFresh | src/vault/vault_index.rs:200-216 | The same for histories that start with create. |
| Freshness.RekeyIssued | src/vault/facade.rs:484-500 | Every entry of a re-keyed vault was stored under the name and the counter of one step of the walk. |
| Freshness.PairsConsecutive | src/vault/vault_index.rs:109-116 | The pairs taken by any calls under one set of keys carry the keys of the names stored under, in order, with consecutive counters from the counter at the start. |
| Freshness.ReopenExact | src/vault/vault_index.rs:200-216 | The first store after going back to an export takes a counter again if and only if some store took one since, that is, if the counter has moved. |
| Freshness.ForkExact | src/vault/vault_index.rs:200-216 | Two continuations of one export issue a pair in common if and only if, for some i, the i-th counters of both are taken under names with one HMAC; they issue a counter in common if and only if both take one at all. |
| Freshness.ForkReuses | src/vault/vault_index.rs:200-216 | Two continuations of one export that store under the same name use the same key, entry key and counter. |
| Freshness.AadInjective | src/vault/facade.rs:685-692 | For entry keys of equal length, the AAD determines both the entry key and the counter. |
| Consistency.HypothesesMeetable | src/vault/facade.rs:76-507 | The hypotheses of the theorems about runs and histories hold of one run of the toy library that stores two names, exports, opens the export and changes the password, every call succeeding, with both secrets there at the end. |
| Consistency.ForkHappens | src/vault/vault_index.rs:200-216 | A concrete fork, from create, in which one pair under one key protects two different secrets. |
| Consistency.ClashHappens | src/vault/facade.rs:208-245 | Two concrete stores, from create, of which the second destroys the secret of the first: the HMAC condition cannot be dropped. |

## Left out

- Secrecy and unforgeability: Argon2, HKDF, HMAC and XChaCha20-Poly1305 appear only through the laws above.
- What a wrong password or a forged file does: the model allows any outcome the AEAD allows, and shows that an accepted one is structurally sound.
- General JSON parsing of the header and of the version 1 index: a library; the version 1 conversion starts from the parsed document.
- `load` and `save`: file system, temporary file, rename and fsync.
- `LockedSecret` and `extract_enc_key`: a key is a 32-byte value, so the length error cannot arise.
- Zeroization, timing, constant-time comparison and the order in which buffers are dropped.
- Error texts: an error keeps its variant and, for crypto and input errors, its cause.
- `with_secret`: `retrieve` followed by the caller's function.
- Uniqueness of random nonces: no proof relies on it.
- IndexCodec.CapacityBounded: counts the entries reserved and the blob bytes copied; the 64-byte hex text of each key is not counted.
- Freshness.HistoryExact: the pairs issued by a re-keying that fails are not logged, as in `LinearFresh`; files of other histories are not opened.
- Freshness.LinearFresh: the pairs issued by a re-keying that fails are not logged, because its keys and ciphertexts are dropped with it.
- Rekeying.RekeyMeaning: states the data counters for names that do not collide; with a collision `RekeyConcrete` says which entry, with which counter, is kept.
- Fuzz targets, benchmarks and the wrappers in src/fuzzing.rs and src/crypto/utils.rs.
