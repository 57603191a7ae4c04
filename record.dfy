/**
 * The raw private-key record (`struct asignify_private_key`) that the
 * parser fills, its secure cleanup, and the sanity check run on it before
 * unlocking.
 */
module PrivateKeyRecord {
  import opened Bytes
  import opened Config
  import opened Fields

  /** The record's contents as values: each buffer is absent or holds its bytes. */
  datatype RawKey = RawKey(
    version: uint32,
    pbkdfAlg: Option<seq<byte>>,
    rounds: uint32,
    salt: Option<seq<byte>>,
    checksum: Option<seq<byte>>,
    id: Option<seq<byte>>,
    encryptedBlob: Option<seq<byte>>)

  function Contents(a: array?<byte>): Option<seq<byte>>
    reads a
  {
    if a == null then None else Some(a[..])
  }

  /** Every present hex buffer has the length its table entry decodes to. */
  predicate WellFormed(k: RawKey)
  {
    && (k.salt.Some? ==> |k.salt.value| == SALT_LEN)
    && (k.checksum.Some? ==> |k.checksum.value| == BLAKE2B_OUTBYTES)
    && (k.id.Some? ==> |k.id.value| == KEY_ID_LEN)
    && (k.encryptedBlob.Some? ==> |k.encryptedBlob.value| == SECRETKEYBYTES)
  }

  class PrivateKey {
    var version: uint32
    var pbkdfAlg: array?<byte>
    var rounds: uint32
    var salt: array?<byte>
    var checksum: array?<byte>
    var id: array?<byte>
    var encryptedBlob: array?<byte>

    /** Every member zero, as after `memset(&privk, 0, sizeof(privk))`. */
    predicate Cleared()
      reads this
    {
      && version == 0 && rounds == 0
      && pbkdfAlg == null && salt == null && checksum == null
      && id == null && encryptedBlob == null
    }

    /**
     * Buffers have their table lengths, and the secret blob shares storage
     * with no other member.
     */
    ghost predicate Valid()
      reads this
    {
      && (salt != null ==> salt.Length == SALT_LEN)
      && (checksum != null ==> checksum.Length == BLAKE2B_OUTBYTES)
      && (id != null ==> id.Length == KEY_ID_LEN)
      && (encryptedBlob != null ==>
            && encryptedBlob.Length == SECRETKEYBYTES
            && encryptedBlob != salt && encryptedBlob != checksum
            && encryptedBlob != id && encryptedBlob != pbkdfAlg)
    }

    constructor ()
      ensures Cleared() && Valid()
    {
      version, rounds := 0, 0;
      pbkdfAlg, salt, checksum, id, encryptedBlob := null, null, null, null, null;
    }

    /** The abstract value of the record. */
    function Raw(): (k: RawKey)
      reads this, pbkdfAlg, salt, checksum, id, encryptedBlob
      ensures Valid() ==> WellFormed(k)
      ensures Cleared() ==> k == RawKey(0, None, 0, None, None, None, None)
    {
      RawKey(version, Contents(pbkdfAlg), rounds, Contents(salt), Contents(checksum),
             Contents(id), Contents(encryptedBlob))
    }

    /** The buffer member a table destination names (none for `rounds`). */
    function BytesField(f: FieldId): array?<byte>
      reads this
    {
      match f
      case Checksum => checksum
      case EncryptedBlob => encryptedBlob
      case Id => id
      case PbkdfAlg => pbkdfAlg
      case Rounds => null
      case Salt => salt
    }

    /** Stores a buffer through a table destination (`*desth = ...`). */
    method SetBytesField(f: FieldId, a: array?<byte>)
      requires f != Rounds
      modifies this
      ensures BytesField(f) == a
      ensures checksum == if f == Checksum then a else old(checksum)
      ensures encryptedBlob == if f == EncryptedBlob then a else old(encryptedBlob)
      ensures id == if f == Id then a else old(id)
      ensures pbkdfAlg == if f == PbkdfAlg then a else old(pbkdfAlg)
      ensures salt == if f == Salt then a else old(salt)
      ensures version == old(version) && rounds == old(rounds)
    {
      match f
      case Checksum => checksum := a;
      case EncryptedBlob => encryptedBlob := a;
      case Id => id := a;
      case PbkdfAlg => pbkdfAlg := a;
      case Salt => salt := a;
    }
  }

  /**
   * `asignify_privkey_cleanup`: releases every buffer, zeroing the secret
   * blob first, then zeroes the record itself. The other buffers are
   * released without being overwritten.
   */
  method PrivkeyCleanup(privk: PrivateKey?)
    requires privk != null ==> privk.Valid()
    modifies privk, if privk != null && privk.encryptedBlob != null then {privk.encryptedBlob} else {}
    ensures privk != null ==> privk.Cleared() && privk.Valid()
    ensures privk != null && old(privk.encryptedBlob) != null ==>
      old(privk.encryptedBlob)[..] == Zeros(SECRETKEYBYTES)
  {
    if privk != null {
      if privk.encryptedBlob != null {
        ExplicitMemzero(privk.encryptedBlob, SECRETKEYBYTES);
      }
      privk.version, privk.rounds := 0, 0;
      privk.pbkdfAlg, privk.salt, privk.checksum, privk.id, privk.encryptedBlob := null, null, null, null, null;
    }
  }

  /** `pbkdf_alg` is present and, read as a C string, names the supported KDF. */
  predicate SupportedKdf(k: RawKey)
  {
    k.pbkdfAlg.Some? && CStr(k.pbkdfAlg.value) == PBKDF_ALG
  }

  /**
   * `asignify_private_key_is_sane`. A key naming the supported KDF needs
   * enough rounds, a salt, version 1, an id, a blob and a checksum; any
   * other key (no KDF, or a KDF of another name) needs version 1, an id and
   * a blob.
   */
  function IsSane(k: RawKey): (sane: bool)
    ensures sane ==> k.version == 1 && k.id.Some? && k.encryptedBlob.Some?
    ensures sane && SupportedKdf(k) ==>
      k.rounds >= PBKDF_MINROUNDS && k.salt.Some? && k.checksum.Some?
  {
    if SupportedKdf(k) then
      && k.rounds >= PBKDF_MINROUNDS
      && k.salt.Some?
      && k.version == 1
      && k.id.Some? && k.encryptedBlob.Some? && k.checksum.Some?
    else
      k.version == 1 && k.id.Some? && k.encryptedBlob.Some?
  }

  /** A record whose version is not 1 is never sane, whatever else it holds. */
  lemma InsaneUnlessVersionOne(k: RawKey)
    requires k.version != 1
    ensures !IsSane(k)
  {
  }

  /** A complete encrypted key is sane exactly when it declares at least the minimum rounds. */
  lemma RoundsFloor(k: RawKey)
    requires SupportedKdf(k) && k.version == 1
    requires k.salt.Some? && k.id.Some? && k.encryptedBlob.Some? && k.checksum.Some?
    ensures IsSane(k) <==> k.rounds >= PBKDF_MINROUNDS
  {
  }

  /**
   * Any KDF name other than the supported one, present or not, takes the
   * plaintext branch: only version, id and blob are then checked.
   */
  lemma OtherKdfIsPlaintext(k: RawKey)
    requires !SupportedKdf(k)
    ensures IsSane(k) <==> k.version == 1 && k.id.Some? && k.encryptedBlob.Some?
  {
  }

  /**
   * What unpacking dereferences: id and blob always, salt and checksum as
   * soon as a KDF name is present.
   */
  predicate UnpackReady(k: RawKey)
  {
    && WellFormed(k)
    && k.id.Some? && k.encryptedBlob.Some?
    && (k.pbkdfAlg.Some? ==> k.salt.Some? && k.checksum.Some?)
  }

  /**
   * Sanity does not guarantee what unpacking dereferences: a record whose
   * KDF name is the empty C string (what the `kdf` field always stores),
   * with neither salt nor checksum, is sane, yet unpacking takes its KDF
   * path because a name is present.
   */
  lemma SaneButNotUnpackReady()
    ensures var k := RawKey(1, Some([NUL]), 0, None, None,
                            Some(Zeros(KEY_ID_LEN)), Some(Zeros(SECRETKEYBYTES)));
            IsSane(k) && !UnpackReady(k)
  {
  }
}
