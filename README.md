# asignify key containers in Dafny

This project models the key-container code of asignify
(`libasignify/databuf.c`): the text format that holds a private signing
key, optionally encrypted under a password, and the one-line public-key
format.

It models these parts:

- **Field schema and lookup.** The sorted six-entry table `parser_fields`
  and its `bsearch` lookup. The comparator runs `strncmp` over the
  candidate's length only, so any prefix of a name selects that name.
- **Value interpreter.** `parse_value` stores a string field, a hex field
  or an unsigned field through an enumeration of record members.
- **Line parser.** `parse_line` is a five-state machine, modelled as a
  `while` loop over an array.
- **Sanity check.** The checks a raw record must pass before unlocking.
- **Unlock pipeline.** A password callback runs with a canary at the tail
  of its buffer. The KDF keystream is XORed into the blob in place and the
  result is checked against the stored BLAKE2b checksum. The secret and its
  id are copied out, and every path wipes the record.
- **Loaders.** The private-key driver and the public-key loader.

The model follows the code as written. Several behaviours come out as
proved facts rather than as intentions:

- The line parser clears the selected field when it leaves the white-space
  state, so the value state always fails. `ParseLine` accepts exactly the
  buffers of the form `name:` followed by white space (`LineAccepted`). It
  never hands a value to the interpreter and never changes the record.
- The buffer the line reader returns always holds the NUL that ends the
  line, and a buffer with a NUL is never accepted (`NulBufferRejected`).
- No field sets `version`. The record is therefore still all zero when the
  sanity check runs, and `PrivateDataLoad` returns null on every input.
- An unsigned value fails at its newline, because the digit test comes
  before the newline test. The string field stores its NUL at index 0, so
  the KDF name it would store is always the empty C string.
- The sanity check lets a record carrying a KDF name other than the
  supported one pass with neither salt nor checksum. Unlocking that record
  would still read both. `SaneButNotUnpackReady` exhibits such a record.
  `UnpackKey` therefore requires what it reads (`UnpackReady`).
- The unlock's password and keystream buffers live on its stack and start
  with whatever they held. The password buffer is written only once a
  callback is called, and from then on it is zero when the call returns.
  The keystream buffer is written only by the KDF. It is zero when the call
  returns after a successful KDF. When the KDF fails, the unlock returns
  without wiping it, and it may hold whatever the KDF left there
  (`UnpackKey`).
- The public loader reads the version from the last byte of the magic on.
  It always stores version 1 and stores the two expected lengths crosswise.
  It also decodes the id from that same byte on. When the magic ends in
  `:`, the version reads as 0 (`ColonMagicReadsZero`), so such a loader
  asked for versions from 1 up refuses everything
  (`ColonMagicRefusesPositiveVersions`).

`state` is a local of `parse_line`, reset on every call
(libasignify/databuf.c:253), so nothing carries over between lines.

Collaborators whose bodies are not part of this model:

- `hex2bin` is a method that may produce either result code and any
  bytes. Every caller is proved for all such outcomes.
- What `b64_pton_stop` decodes is an arbitrary function, `B64Decoder`,
  passed to the public loader. It either refuses or yields at most the
  target size in bytes.
- `pkcs5_pbkdf2` and `blake2b` are arbitrary functions, bundled in a
  `Crypto` value. `pkcs5_pbkdf2` either fails or yields
  `crypto_sign_SECRETKEYBYTES` bytes. `blake2b` yields `BLAKE2B_OUTBYTES`
  bytes.
- The canary that `randombytes` produces is a parameter, and so are the
  unlock's two stack buffers.
- A password callback is a value. It says which bytes the callback writes
  at the start of the buffer and what it returns.
- The size constants, the KDF name and the private-key magic are
  unspecified constants, so every proof holds for any positive sizes and
  any non-empty names without NUL.

## Model

| member | source | states |
|---|---|---|
| `Bytes.CStr` | libasignify/databuf.c:341 | the C string in a buffer is its NUL-free prefix, ending at the first NUL when there is one |
| `Bytes.XorBytes` | libasignify/databuf.c:408-410 | the byte-wise XOR keeps the blob's length |
| `Bytes.XorTwiceRestores` | libasignify/databuf.c:408-410 | XORing the same keystream twice gives back the original bytes |
| `Bytes.ExplicitMemzero` | libasignify/databuf.c:189-190 | the first `n` bytes become zero and the rest are untouched |
| `Fields.TableShape` | libasignify/databuf.c:59-95 | six entries; names non-empty and NUL-free; first bytes strictly increasing |
| `Fields.TableDestinations` | libasignify/databuf.c:59-95 | the string entry writes the KDF name and the unsigned entry the rounds; each hex entry's length is its member's size |
| `Fields.FirstByteLess` | libasignify/databuf.c:56-58 | names whose first bytes are ordered are ordered lexicographically |
| `Fields.TableSorted` | libasignify/databuf.c:56-95 | the table is strictly sorted by name, as `bsearch` needs |
| `Fields.StrnCmpFrom` | libasignify/databuf.c:181 | `strncmp` yields a difference of two unsigned bytes, and 0 exactly when the strings agree on the first `n` positions up to the first NUL |
| `Fields.FieldsCmp` | libasignify/databuf.c:174-182 | for NUL-free strings the comparator reports equality exactly when the candidate is a prefix of the entry's name |
| `Fields.StrnCmpFromZero` | libasignify/databuf.c:181 | for NUL-free strings, `strncmp` over the candidate's length is 0 iff the candidate fits in the name and agrees with it from that position |
| `Fields.SelectsIff` | libasignify/databuf.c:174-182 | a NUL-free candidate selects an entry iff it is no longer than the name and equals the name's first bytes (a prefix selects) |
| `Fields.FirstByteDecides` | libasignify/databuf.c:174-182 | the comparator's sign on a non-empty candidate is bounded by the first bytes |
| `Fields.SelectsUnique` | libasignify/databuf.c:174-182 | a non-empty candidate selects at most one entry |
| `Fields.CmpMonotone` | libasignify/databuf.c:268-270 | a negative verdict excludes every later entry and a positive one every earlier entry |
| `Fields.BSearch` | libasignify/databuf.c:268-270 | returns an entry the comparator calls equal, or none exactly when no entry is equal |
| `Fields.PrefixSelectsData` | libasignify/databuf.c:268-270 | the candidate "d" selects `data` and no other entry |
| `PrivateKeyRecord.PrivateKey.constructor` | libasignify/databuf.c:453 | a new record is all zero and well formed |
| `PrivateKeyRecord.PrivateKey.Raw` | libasignify/databuf.c:453 | a well-formed record has table-length buffers; an all-zero record is the empty value |
| `PrivateKeyRecord.PrivateKey.SetBytesField` | libasignify/databuf.c:221-222 | a store through a member destination changes that member only |
| `PrivateKeyRecord.PrivkeyCleanup` | libasignify/databuf.c:184-198 | the blob is zeroed before release, and the record is all zero and still well formed |
| `PrivateKeyRecord.IsSane` | libasignify/databuf.c:338-363 | sane implies version 1, id and blob; for the supported KDF also rounds at the minimum, salt and checksum |
| `PrivateKeyRecord.InsaneUnlessVersionOne` | libasignify/databuf.c:344-355 | any version other than 1 is refused |
| `PrivateKeyRecord.RoundsFloor` | libasignify/databuf.c:341-342 | a complete encrypted record is sane iff its rounds reach the minimum |
| `PrivateKeyRecord.OtherKdfIsPlaintext` | libasignify/databuf.c:353-360 | any KDF name other than the supported one, or none, is judged by version, id and blob only |
| `PrivateKeyRecord.SaneButNotUnpackReady` | libasignify/databuf.c:338-363 | a sane record can lack the salt and checksum that unlocking reads |
| `Externals.DigitRunEnd` | libasignify/databuf.c:232 | the digit run ends at the first non-digit or at the end |
| `Externals.StrToUl` | libasignify/databuf.c:232 | consumes the digit run; the value is at most `ULONG_MAX`, and overflow is flagged exactly when the digits exceed it |
| `Externals.StrChr` | libasignify/databuf.c:152 | the first ':' before the terminator, or none when there is none |
| `Externals.Hex2Bin` | libasignify/databuf.c:223 | reports 0 or -1 |
| `Externals.B64PtonStop` | libasignify/databuf.c:151 | -1 exactly when the decoder refuses, else the decoded length with the decoded bytes at the start of the target |
| `Parser.NameRunEnd` | libasignify/databuf.c:263-288 | the name run is the longest prefix of printable non-colon bytes |
| `Parser.NulBufferRejected` | libasignify/databuf.c:261-335 | a buffer holding a NUL is never accepted |
| `Parser.ValueLineRejected` | libasignify/databuf.c:300-328 | a non-blank byte after `name:` makes the line fail |
| `Parser.HexLengthAcceptsOdd` | libasignify/databuf.c:217 | the `len / 2` test passes exactly for `2*required` and `2*required + 1` digits |
| `Parser.ParseValue` | libasignify/databuf.c:200-240 | string: fresh `len + 1` buffer starting with NUL (an empty C string); hex: refused with the record unchanged unless `len / 2` matches, and a decode failure nulls the member; unsigned: `strtoul` truncated to 32 bits, failing only on overflow; other members untouched |
| `Parser.ValueStep` | libasignify/databuf.c:300-319 | no field fails; an unsigned field fails on a non-digit and never commits; another byte is skipped; at a newline the step fails exactly when the interpreter refuses: a string field always commits an empty C string, a hex value of the wrong length fails with the record unchanged, and one of the right length commits a fresh buffer of that length or fails with the member null; `version` never changes, `rounds` only for the unsigned field, and no member but the selected field's destination |
| `Parser.ParseLine` | libasignify/databuf.c:242-336 | returns true exactly for `LineAccepted` buffers and leaves the record unchanged |
| `Unlock.PasswordBuffer` | libasignify/databuf.c:386-390 | the 1024-byte buffer starts with what the callback wrote, and the rest of its 1014-byte room keeps what it held |
| `Unlock.CanaryIntactIff` | libasignify/databuf.c:391-392 | the canary check fails iff the callback wrote past its 1014 bytes and changed a guard byte |
| `Unlock.UnlockSpec` | libasignify/databuf.c:365-443 | success yields the record's id and a secret of `SECRETKEYBYTES`; the plaintext path copies the blob; an encrypted success hashes to the stored checksum; no callback means failure |
| `Unlock.Keystream` | libasignify/databuf.c:386-405 | a keystream exists only for a result in 1..1014 with the canary intact |
| `Unlock.UnlockRefusesBadCallback` | libasignify/databuf.c:380-397 | a result outside 1..1014 or a changed canary byte refuses |
| `Unlock.UnlockRecoversSecret` | libasignify/databuf.c:399-428 | a blob made by XORing a secret with the password's keystream, with that secret's checksum, unlocks back to the secret |
| `Unlock.PrivateData.constructor` | libasignify/databuf.c:376 | a new unlocked key has no buffers |
| `Unlock.ExportSecret` | libasignify/databuf.c:422-428 | fresh `data` and `id` buffers hold the blob and the id, and the blob is then zeroed |
| `Unlock.CallPassword` | libasignify/databuf.c:390 | the callback's bytes overwrite the buffer's start, and its result is returned |
| `Unlock.ReadPassword` | libasignify/databuf.c:387-390 | the buffer holds its old room contents and the canary at its tail, overwritten by whatever the callback wrote |
| `Unlock.Pbkdf2` | libasignify/databuf.c:399-400 | 0 with the derived keystream written out exactly when the KDF yields one, else -1 with the output buffer arbitrary |
| `Unlock.XorInto` | libasignify/databuf.c:408-410 | the blob becomes its old value XOR the keystream |
| `Unlock.DeriveKeystream` | libasignify/databuf.c:386-406 | succeeds iff `Keystream` of the buffer's old room is defined and then holds it; the keystream buffer is untouched when the callback is refused; the password buffer is zero afterwards |
| `Unlock.UnpackKey` | libasignify/databuf.c:365-443 | returns null iff `UnlockSpec` of the record and the password buffer's old room is none, else fresh buffers holding its id and secret; the record is wiped and the blob zeroed; the password buffer is untouched when no callback is called and zero otherwise; the keystream buffer is untouched when the KDF does not run and zero after it succeeds |
| `Unlock.PrivateDataFree` | libasignify/databuf.c:481-494 | the id is dropped and the secret's `dataLen` bytes are zeroed |
| `Loader.MagicLine` | libasignify/databuf.c:458 | the first buffer is accepted exactly when the magic is a prefix of it |
| `Loader.PrivateDataLoad` | libasignify/databuf.c:445-479 | returns null on every input, because the record stays all zero and the sanity check refuses it |
| `PublicKey.PublicData.constructor` | libasignify/databuf.c:144 | a new public record is all zero |
| `PublicKey.AllocPublicDataFields` | libasignify/databuf.c:109-114 | fresh distinct buffers of the recorded lengths |
| `PublicKey.PublicDataFree` | libasignify/databuf.c:97-107 | both buffers are cleared |
| `PublicKey.VersionField` | libasignify/databuf.c:135-138 | the version is a 32-bit value read from the magic's last byte on |
| `PublicKey.ColonMagicReadsZero` | libasignify/databuf.c:135-139 | after a magic ending in ':' the version reads 0 and its terminator test passes |
| `PublicKey.PublicLoadSpec` | libasignify/databuf.c:120-167 | a result implies the magic prefix, a version followed by ':' and in range, a ':' after the id, and decoded id and data of the crosswise expected lengths |
| `PublicKey.ColonMagicRefusesPositiveVersions` | libasignify/databuf.c:135-139 | with a magic ending in ':' and a minimum version of at least 1, nothing loads |
| `PublicKey.PublicDataLoad` | libasignify/databuf.c:120-167 | returns a record exactly when `PublicLoadSpec` yields one; it then has version 1, the swapped lengths, and buffers holding the decoded id and data |

## Left out

- Reading the file with `getline` is replaced by a sequence of buffers, each as the reader leaves it.
- `mlock` and `munlock` of the secret are not modelled; they are an operating-system facility.
- `explicit_memzero` is modelled as writing zeros; its resistance to compiler optimisation is not expressible here.
- `free` is not modelled, and `xmalloc` is a fresh allocation. The unlock's stack buffers (the password and the keystream) are parameters with arbitrary contents, distinct from the record's buffers.
- The character classes are those of the C locale.
- `pkcs5_pbkdf2`, `blake2b`, `randombytes`, `hex2bin` and `b64_pton_stop` are not part of this model: the first two and the base64 decoder are arbitrary functions, the canary a parameter, and `hex2bin` may produce anything; the header constants are unspecified.
- Hex2Bin: states only its result codes, not the decoded bytes, because the decoder is not part of this model.
- B64PtonStop: does not say what the target holds past the decoded bytes or after a refusal, because the decoder is not part of this model.
- ParseValue: for a hex field it states the fresh buffer's length but not its decoded contents, and for a string field it leaves the byte past the copied value (uninitialised in the source) unstated.
- StrToUl: models only a leading run of decimal digits; `strtoul`'s leading white space, sign and base prefixes are not modelled, and `errno` is set only on overflow.
- PublicDataLoad: the `remain` counter, computed and never read, is left out.
- UnpackKey: requires the id, the blob and, when a KDF name is present, the salt and checksum, because the source reads them without a check; it also requires its two stack buffers to be distinct from each other and from the record's buffers, as stack locals are.
- PublicDataLoad: requires a magic of at least one byte, because the version is read from the magic's last byte on, and an empty magic would point before the buffer.
- PublicDataLoad: the buffer is read as a C string that ends at `buflen`; `strtoul`, `strchr` and `b64_pton_stop` in the source stop only at a NUL and could read past `buflen` when there is none.
- The memory read past a buffer shorter than the magic is not modelled: such a first line counts as a mismatch.
- A password callback that writes more than 1024 bytes is not modelled; that would overrun the stack buffer.
- The call to unlocking at the end of the private-key driver is unreachable and appears only as a proved-dead branch.
