/**
 * The unlock pipeline (`asignify_private_data_unpack_key`) and the
 * unlocked key (`struct asignify_private_data`). The password-derived
 * keystream is XORed into the stored blob in place, the result is checked
 * against the stored BLAKE2b checksum, and the secret and its id are copied
 * out; every path ends by wiping the record. The password and keystream
 * buffers are the caller's stack, with whatever contents they had. Once a
 * callback is called the password buffer is zero when the call returns;
 * the keystream buffer is zero once the KDF has succeeded, untouched when
 * the KDF never ran, and after a failed KDF it holds whatever the KDF left,
 * because that path returns without wiping it.
 *
 * What the pipeline computes is stated once, as the function `UnlockSpec`
 * of the record's contents; the method is proved to return exactly that.
 */
module Unlock {
  import opened Bytes
  import opened Config
  import opened PrivateKeyRecord
  import opened Externals

  /** `crypto_sign_SECRETKEYBYTES` bytes: a secret key or a keystream for it. */
  type SecretKeyBytes = s: seq<byte> | |s| == SECRETKEYBYTES witness Zeros(SECRETKEYBYTES)

  /** A `BLAKE2B_OUTBYTES`-byte BLAKE2b digest. */
  type Digest = s: seq<byte> | |s| == BLAKE2B_OUTBYTES witness Zeros(BLAKE2B_OUTBYTES)

  /**
   * The two cryptographic primitives, as the functions they compute:
   * `pkcs5_pbkdf2` of (password, salt, rounds), which yields the keystream
   * or fails, and unkeyed `blake2b` of a secret key.
   */
  datatype Crypto = Crypto(
    pbkdf2: (seq<byte>, seq<byte>, uint32) -> Option<SecretKeyBytes>,
    blake2b: seq<byte> -> Digest)

  /** What a callback may write: at most the whole password buffer. */
  type PasswordFill = s: seq<byte> | |s| <= PASSWORD_LEN

  /**
   * A password callback: the bytes it writes from the start of the buffer
   * it is handed, and the value it returns (the password length, or a
   * value of at most 0 on failure).
   */
  datatype PasswordCallback = PasswordCallback(fill: PasswordFill, result: int)

  /** The id and secret key an unlock yields. */
  datatype Secret = Secret(id: seq<byte>, data: seq<byte>)

  /**
   * The password buffer once the canary is in its last `CANARY_LEN` bytes
   * and the callback has written; `room` is what its first 1014 bytes held
   * before.
   */
  function PasswordBuffer(room: seq<byte>, canary: seq<byte>, cb: PasswordCallback): (buf: seq<byte>)
    requires |room| == PASSWORD_ROOM && |canary| == CANARY_LEN
    ensures |buf| == PASSWORD_LEN
    ensures buf[..|cb.fill|] == cb.fill
    ensures |cb.fill| <= PASSWORD_ROOM ==> buf[|cb.fill|..PASSWORD_ROOM] == room[|cb.fill|..]
  {
    cb.fill + (room + canary)[|cb.fill|..]
  }

  /** The tail of the password buffer still holds the canary. */
  predicate CanaryIntact(buf: seq<byte>, canary: seq<byte>)
    requires |buf| == PASSWORD_LEN
  {
    buf[PASSWORD_ROOM..] == canary
  }

  /**
   * The canary trips exactly when the callback wrote past the room it was
   * offered and changed one of the guard bytes.
   */
  lemma CanaryIntactIff(room: seq<byte>, canary: seq<byte>, cb: PasswordCallback)
    requires |room| == PASSWORD_ROOM && |canary| == CANARY_LEN
    ensures CanaryIntact(PasswordBuffer(room, canary, cb), canary) <==>
      (|cb.fill| <= PASSWORD_ROOM || cb.fill[PASSWORD_ROOM..] == canary[..|cb.fill| - PASSWORD_ROOM])
  {
    var buf := PasswordBuffer(room, canary, cb);
    var n := |cb.fill|;
    if n <= PASSWORD_ROOM {
      assert buf[PASSWORD_ROOM..] == (room + canary)[PASSWORD_ROOM..] == canary;
    } else {
      var written, kept := cb.fill[PASSWORD_ROOM..], canary[n - PASSWORD_ROOM..];
      assert buf[PASSWORD_ROOM..] == written + kept;
      assert canary == canary[..n - PASSWORD_ROOM] + kept;
      if buf[PASSWORD_ROOM..] == canary {
        assert written == (written + kept)[..n - PASSWORD_ROOM];
      }
    }
  }

  /**
   * What unlocking a record yields. A record without a KDF name holds its
   * secret in the clear. Otherwise a callback is needed; its result must
   * lie in 1..1014 with the canary intact; the KDF must succeed on the
   * first `result` bytes of the buffer; the blob XORed with the keystream
   * must hash to the stored checksum.
   */
  function UnlockSpec(k: RawKey, room: seq<byte>, cb: Option<PasswordCallback>, canary: seq<byte>,
                      crypto: Crypto)
    : (r: Option<Secret>)
    requires UnpackReady(k) && |room| == PASSWORD_ROOM && |canary| == CANARY_LEN
    ensures r.Some? ==> r.value.id == k.id.value && |r.value.data| == SECRETKEYBYTES
    ensures r.Some? && k.pbkdfAlg.None? ==> r.value.data == k.encryptedBlob.value
    ensures r.Some? && k.pbkdfAlg.Some? ==> crypto.blake2b(r.value.data) == k.checksum.value
    ensures k.pbkdfAlg.Some? && cb.None? ==> r.None?
  {
    if k.pbkdfAlg.None? then Some(Secret(k.id.value, k.encryptedBlob.value))
    else if cb.None? then None
    else match Keystream(k, room, cb.value, canary, crypto)
      case None => None
      case Some(keystream) =>
        var plain := XorBytes(k.encryptedBlob.value, keystream);
        if crypto.blake2b(plain) != k.checksum.value then None
        else Some(Secret(k.id.value, plain))
  }

  /** The callback's result lies in 1..1014 and the canary is intact: the KDF runs. */
  predicate CallbackAccepted(room: seq<byte>, canary: seq<byte>, cb: PasswordCallback)
    requires |room| == PASSWORD_ROOM && |canary| == CANARY_LEN
  {
    0 < cb.result <= PASSWORD_ROOM && CanaryIntact(PasswordBuffer(room, canary, cb), canary)
  }

  /**
   * The keystream an encrypted record is unlocked with: none unless the
   * callback's result lies in 1..1014 with the canary intact, and then the
   * KDF of the first `result` bytes of the password buffer.
   */
  function Keystream(k: RawKey, room: seq<byte>, cb: PasswordCallback, canary: seq<byte>, crypto: Crypto)
    : (r: Option<SecretKeyBytes>)
    requires UnpackReady(k) && k.pbkdfAlg.Some? && |room| == PASSWORD_ROOM && |canary| == CANARY_LEN
    ensures r.Some? ==> 0 < cb.result <= PASSWORD_ROOM
    ensures r.Some? ==> CanaryIntact(PasswordBuffer(room, canary, cb), canary)
  {
    var pw := PasswordBuffer(room, canary, cb);
    var n := cb.result;
    if n <= 0 || n > PASSWORD_ROOM || !CanaryIntact(pw, canary) then None
    else crypto.pbkdf2(pw[..n], k.salt.value, k.rounds)
  }

  /** A callback result outside 1..1014, or a tripped canary, refuses an encrypted record. */
  lemma UnlockRefusesBadCallback(k: RawKey, room: seq<byte>, cb: PasswordCallback, canary: seq<byte>,
                                 crypto: Crypto)
    requires UnpackReady(k) && |room| == PASSWORD_ROOM && |canary| == CANARY_LEN && k.pbkdfAlg.Some?
    requires cb.result <= 0 || cb.result > PASSWORD_ROOM ||
             (|cb.fill| > PASSWORD_ROOM && cb.fill[PASSWORD_ROOM..] != canary[..|cb.fill| - PASSWORD_ROOM])
    ensures UnlockSpec(k, room, Some(cb), canary, crypto).None?
  {
  }

  /**
   * Unlocking an encrypted record with the right password gives back the
   * secret it was made from: if the blob is the secret XORed with the
   * keystream that password derives, and the checksum is the secret's
   * hash, a callback that writes that password (1..1014 bytes, within its
   * room) and returns its length yields the id and the secret, whatever
   * the buffer held before.
   */
  lemma UnlockRecoversSecret(k: RawKey, room: seq<byte>, password: seq<byte>, secret: SecretKeyBytes,
                             canary: seq<byte>, crypto: Crypto)
    requires UnpackReady(k) && |room| == PASSWORD_ROOM && |canary| == CANARY_LEN && k.pbkdfAlg.Some?
    requires 0 < |password| <= PASSWORD_ROOM
    requires crypto.pbkdf2(password, k.salt.value, k.rounds).Some?
    requires k.encryptedBlob.value ==
             XorBytes(secret, crypto.pbkdf2(password, k.salt.value, k.rounds).value)
    requires k.checksum.value == crypto.blake2b(secret)
    ensures UnlockSpec(k, room, Some(PasswordCallback(password, |password|)), canary, crypto)
            == Some(Secret(k.id.value, secret))
  {
    var cb := PasswordCallback(password, |password|);
    CanaryIntactIff(room, canary, cb);
    var pw := PasswordBuffer(room, canary, cb);
    assert pw[..|password|] == password;
    var keystream := crypto.pbkdf2(password, k.salt.value, k.rounds).value;
    XorTwiceRestores(secret, keystream);
  }

  /** `struct asignify_private_data`: an unlocked key. */
  class PrivateData {
    var id: array?<byte>
    var idLen: nat
    var data: array?<byte>
    var dataLen: nat

    /** Both buffers are present, distinct and as long as their recorded lengths. */
    ghost predicate Valid()
      reads this
    {
      id != null && data != null && id != data && id.Length == idLen && data.Length == dataLen
    }

    /** `xmalloc(sizeof(*priv))`, modelled with both buffers absent. */
    constructor ()
      ensures id == null && data == null && idLen == 0 && dataLen == 0
    {
      id, data, idLen, dataLen := null, null, 0, 0;
    }
  }

  /**
   * The copy-out step shared by both branches of the pipeline: the blob is
   * copied into a fresh `data` buffer and then wiped, and the id is copied
   * into a fresh `id` buffer.
   */
  method ExportSecret(priv: PrivateData, privk: PrivateKey)
    requires privk.Valid() && privk.id != null && privk.encryptedBlob != null
    modifies priv, privk.encryptedBlob
    ensures priv.Valid() && fresh(priv.id) && fresh(priv.data)
    ensures priv.dataLen == SECRETKEYBYTES && priv.idLen == KEY_ID_LEN
    ensures priv.data[..] == old(privk.encryptedBlob[..])
    ensures priv.id[..] == privk.id[..]
    ensures privk.encryptedBlob[..] == Zeros(SECRETKEYBYTES)
  {
    var blob := privk.encryptedBlob;
    var data := new byte[SECRETKEYBYTES];
    forall i | 0 <= i < SECRETKEYBYTES {
      data[i] := blob[i];
    }
    priv.data, priv.dataLen := data, SECRETKEYBYTES;
    ExplicitMemzero(blob, SECRETKEYBYTES);
    var id := new byte[KEY_ID_LEN];
    forall i | 0 <= i < KEY_ID_LEN {
      id[i] := privk.id[i];
    }
    priv.id, priv.idLen := id, KEY_ID_LEN;
  }

  /** The password callback writes its bytes over the start of the buffer and returns its result. */
  method CallPassword(cb: PasswordCallback, buf: array<byte>) returns (r: int)
    requires buf.Length == PASSWORD_LEN
    modifies buf
    ensures r == cb.result
    ensures buf[..] == cb.fill + old(buf[..])[|cb.fill|..]
  {
    forall i | 0 <= i < |cb.fill| {
      buf[i] := cb.fill[i];
    }
    r := cb.result;
  }

  /**
   * Puts the canary in the last `CANARY_LEN` bytes of the password buffer
   * and lets the callback write, offering it the bytes before them.
   */
  method ReadPassword(cb: PasswordCallback, canary: seq<byte>, pw: array<byte>) returns (r: int)
    requires |canary| == CANARY_LEN
    requires pw.Length == PASSWORD_LEN
    modifies pw
    ensures r == cb.result
    ensures pw[..] == PasswordBuffer(old(pw[..PASSWORD_ROOM]), canary, cb)
  {
    forall i | 0 <= i < CANARY_LEN {
      pw[PASSWORD_ROOM + i] := canary[i];
    }
    assert pw[..] == old(pw[..PASSWORD_ROOM]) + canary;
    r := CallPassword(cb, pw);
  }

  /**
   * `pkcs5_pbkdf2(pass, ..., salt, ..., key, ..., rounds)`: 0 with the
   * derived key written to `key`, or -1, in which case `key` may hold
   * anything the computation left there.
   */
  method Pbkdf2(crypto: Crypto, pass: seq<byte>, salt: seq<byte>, rounds: uint32, key: array<byte>)
    returns (rc: int)
    requires key.Length == SECRETKEYBYTES
    modifies key
    ensures rc == 0 || rc == -1
    ensures var d := crypto.pbkdf2(pass, salt, rounds);
      (rc == 0 <==> d.Some?) && (rc == 0 ==> key[..] == d.value)
  {
    var derived := crypto.pbkdf2(pass, salt, rounds);
    if derived.None? {
      Scribble(key);
      return -1;
    }
    forall i | 0 <= i < SECRETKEYBYTES {
      key[i] := derived.value[i];
    }
    rc := 0;
  }

  /** The in-place XOR of the keystream into the blob, byte by byte. */
  method XorInto(blob: array<byte>, keystream: array<byte>)
    requires blob.Length == keystream.Length && blob != keystream
    modifies blob
    ensures blob[..] == XorBytes(old(blob[..]), keystream[..])
  {
    var i := 0;
    while i < blob.Length
      invariant 0 <= i <= blob.Length
      invariant forall j :: 0 <= j < i ==> blob[j] == old(blob[j]) ^ keystream[j]
      invariant forall j :: i <= j < blob.Length ==> blob[j] == old(blob[j])
    {
      blob[i] := blob[i] ^ keystream[i];
      i := i + 1;
    }
  }

  /**
   * The password half of the pipeline: the callback fills the buffer, its
   * result and the canary are checked, and the KDF writes the keystream
   * into `xk`. It succeeds exactly when `Keystream` (of what the first
   * 1014 bytes of `pw` held) is defined, and leaves the password buffer
   * zeroed either way. `xk` is untouched when the KDF does not run; after a
   * KDF failure it may hold anything.
   */
  method DeriveKeystream(k: RawKey, cb: PasswordCallback, canary: seq<byte>, crypto: Crypto,
                         pw: array<byte>, xk: array<byte>)
    returns (ok: bool)
    requires UnpackReady(k) && k.pbkdfAlg.Some?
    requires |canary| == CANARY_LEN
    requires pw.Length == PASSWORD_LEN
    requires xk.Length == SECRETKEYBYTES && pw != xk
    modifies pw, xk
    ensures var ks := Keystream(k, old(pw[..PASSWORD_ROOM]), cb, canary, crypto);
      (ok <==> ks.Some?) && (ok ==> xk[..] == ks.value)
    ensures !CallbackAccepted(old(pw[..PASSWORD_ROOM]), canary, cb) ==> xk[..] == old(xk[..])
    ensures pw[..] == Zeros(PASSWORD_LEN)
  {
    ghost var room := pw[..PASSWORD_ROOM];
    var r := ReadPassword(cb, canary, pw);
    assert pw[PASSWORD_ROOM..] == pw[..][PASSWORD_ROOM..];
    if r <= 0 || r > PASSWORD_ROOM || pw[PASSWORD_ROOM..] != canary {
      ExplicitMemzero(pw, PASSWORD_LEN);
      return false;
    }
    assert pw[..r] == PasswordBuffer(room, canary, cb)[..r];
    var rc := Pbkdf2(crypto, pw[..r], k.salt.value, k.rounds, xk);
    if rc == -1 {
      ExplicitMemzero(pw, PASSWORD_LEN);
      return false;
    }
    ExplicitMemzero(pw, PASSWORD_LEN);
    ok := true;
  }

  /** `a` is none of the record's buffers: it is a stack buffer of the caller. */
  ghost predicate OffRecord(privk: PrivateKey, a: array<byte>)
    reads privk
  {
    && a != privk.pbkdfAlg && a != privk.salt && a != privk.checksum
    && a != privk.id && a != privk.encryptedBlob
  }

  /**
   * `asignify_private_data_unpack_key`, with its stack buffers `password`
   * and `xorkey` as `pw` and `xk`, holding whatever they held: returns
   * exactly what `UnlockSpec` says of the record and of the first 1014
   * bytes of `pw` (null when that is none). Whatever the outcome the record
   * is wiped and its blob zeroed. `pw` is untouched on the paths that never
   * call a callback and zero on every other; `xk` is untouched unless the
   * KDF runs, and zero once the KDF has succeeded. A failed KDF returns
   * without wiping `xk`, so nothing is promised about it on that path.
   */
  method UnpackKey(privk: PrivateKey, passwordCb: Option<PasswordCallback>, canary: seq<byte>,
                   crypto: Crypto, pw: array<byte>, xk: array<byte>)
    returns (priv: PrivateData?)
    requires privk.Valid() && UnpackReady(privk.Raw()) && |canary| == CANARY_LEN
    requires pw.Length == PASSWORD_LEN && xk.Length == SECRETKEYBYTES && pw != xk
    requires OffRecord(privk, pw) && OffRecord(privk, xk)
    modifies privk, privk.encryptedBlob, pw, xk
    ensures var spec := UnlockSpec(old(privk.Raw()), old(pw[..PASSWORD_ROOM]), passwordCb, canary, crypto);
      && (priv == null <==> spec.None?)
      && (priv != null ==>
            && fresh(priv) && priv.Valid() && fresh(priv.id) && fresh(priv.data)
            && priv.id[..] == spec.value.id && priv.data[..] == spec.value.data
            && priv.idLen == KEY_ID_LEN && priv.dataLen == SECRETKEYBYTES)
    ensures privk.Cleared()
    ensures old(privk.encryptedBlob)[..] == Zeros(SECRETKEYBYTES)
    ensures old(privk.pbkdfAlg) == null || passwordCb.None? ==> pw[..] == old(pw[..])
    ensures old(privk.pbkdfAlg) != null && passwordCb.Some? ==> pw[..] == Zeros(PASSWORD_LEN)
    ensures !(old(privk.pbkdfAlg) != null && passwordCb.Some? &&
              CallbackAccepted(old(pw[..PASSWORD_ROOM]), canary, passwordCb.value)) ==>
      xk[..] == old(xk[..])
    ensures old(privk.pbkdfAlg) != null && passwordCb.Some? &&
            Keystream(old(privk.Raw()), old(pw[..PASSWORD_ROOM]), passwordCb.value, canary, crypto).Some? ==>
      xk[..] == Zeros(SECRETKEYBYTES)
  {
    var k := privk.Raw();
    var blob := privk.encryptedBlob;
    priv := new PrivateData();
    if privk.pbkdfAlg != null {
      if passwordCb.None? {
        PrivkeyCleanup(privk);
        return null;
      }
      var ok := DeriveKeystream(k, passwordCb.value, canary, crypto, pw, xk);
      if !ok {
        PrivkeyCleanup(privk);
        return null;
      }
      XorInto(blob, xk);
      ExplicitMemzero(xk, SECRETKEYBYTES);
      var resChecksum := crypto.blake2b(blob[..]);
      if resChecksum != privk.checksum[..] {
        ExplicitMemzero(blob, SECRETKEYBYTES);
        PrivkeyCleanup(privk);
        return null;
      }
      ExportSecret(priv, privk);
    } else {
      ExportSecret(priv, privk);
    }
    PrivkeyCleanup(privk);
  }

  /**
   * `asignify_private_data_free`: drops the id and zeroes the first
   * `dataLen` bytes of the secret before releasing it.
   */
  method PrivateDataFree(d: PrivateData?)
    requires d != null && d.data != null ==> d.dataLen <= d.data.Length
    requires d != null && d.data == null ==> d.dataLen == 0
    modifies d, if d != null && d.data != null then {d.data} else {}
    ensures d != null ==> d.id == null && d.data == old(d.data) && d.dataLen == old(d.dataLen)
    ensures d != null && d.data != null ==> d.data[..d.dataLen] == Zeros(d.dataLen)
  {
    if d != null {
      d.id := null;
      if d.data != null {
        ExplicitMemzero(d.data, d.dataLen);
      }
    }
  }
}
