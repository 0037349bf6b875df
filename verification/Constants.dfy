/** The numeric bounds of src/constants.rs. */
module Constants {
  const VAULT_VERSION := 2
  const LEGACY_VAULT_VERSION_1 := 1
  const VAULT_INDEX_VERSION := 2
  const LEGACY_INDEX_VERSION_1 := 1

  const ARGON2_MEMORY_COST := 131072
  const ARGON2_ITERATIONS := 4
  const KEY_LEN := 32
  const SALT_LEN := 16
  const NONCE_LEN := 24
  const TAG_LEN := 16

  const MIN_KDF_MEMORY := 32768
  const MAX_KDF_MEMORY := 262144
  const MIN_KDF_ITERATIONS := 3
  const MAX_KDF_ITERATIONS := 10

  const MAX_HEADER_JSON_LEN := 4096
  const MAX_VAULT_FILE_SIZE := 268435456
  const MIN_PASSWORD_LEN := 8
  const MAX_ENTRY_NAME_LEN := 255
  const MAX_ENTRY_DATA_SIZE := 67108864
  const MAX_INDEX_ENTRIES := 1024

  /** Longest plaintext the AEAD accepts: section 2.8 of RFC 8439. */
  const AEAD_MAX_PLAINTEXT := 274877906880
}
