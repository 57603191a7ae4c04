/**
 * The compile-time constants of asignify that the key-container code uses.
 * Their definitions live in headers that are not part of this model, so the
 * sizes and names are symbolic: every proof holds for any positive sizes and
 * any non-empty NUL-free names. Only the sizes spelled out in databuf.c
 * itself (the password buffer and its canary) are given values.
 */
module Config {
  import opened Bytes

  type Positive = n: int | n > 0 witness 1

  /** A non-empty C string literal, without its terminator. */
  type Literal = s: seq<byte> | |s| > 0 && NUL !in s witness [0x61]

  /** Length of a key identifier. */
  const KEY_ID_LEN: Positive
  /** Length of the KDF salt. */
  const SALT_LEN: Positive
  /** Output length of the BLAKE2b checksum. */
  const BLAKE2B_OUTBYTES: Positive
  /** `crypto_sign_SECRETKEYBYTES`: length of a raw signing secret key. */
  const SECRETKEYBYTES: Positive
  /** Fewest KDF rounds an encrypted key may declare. */
  const PBKDF_MINROUNDS: Positive
  /** Name of the one supported KDF. */
  const PBKDF_ALG: Literal
  /** The first line of a private-key container starts with this. */
  const PRIVKEY_MAGIC: Literal

  /** `sizeof(password)` in `asignify_private_data_unpack_key`. */
  const PASSWORD_LEN: nat := 1024
  /** `sizeof(canary)`: the guard bytes at the tail of the password buffer. */
  const CANARY_LEN: nat := 10
  /** What the password callback is allowed to fill: 1024 - 10. */
  const PASSWORD_ROOM: nat := PASSWORD_LEN - CANARY_LEN
}
