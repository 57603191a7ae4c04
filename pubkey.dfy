/**
 * The public-key container: `<magic><version>:<base64 id>:<base64 data>`
 * on one line, loaded by `asignify_public_data_load` into
 * `struct asignify_public_data`. The loader is modelled as written: the
 * version is read from the last byte of the magic on, the stored version
 * is always 1, and the two expected lengths are stored crosswise.
 */
module PublicKey {
  import opened Bytes
  import opened Externals

  /** `struct asignify_public_data`. */
  class PublicData {
    var version: uint32
    var id: array?<byte>
    var idLen: nat
    var data: array?<byte>
    var dataLen: nat

    /** `xmalloc(sizeof(*res))`, modelled with every member zero. */
    constructor ()
      ensures version == 0 && id == null && data == null && idLen == 0 && dataLen == 0
    {
      version, id, data, idLen, dataLen := 0, null, null, 0, 0;
    }
  }

  /** `asignify_alloc_public_data_fields`: fresh buffers of the recorded lengths. */
  method AllocPublicDataFields(pk: PublicData)
    modifies pk
    ensures pk.data != null && fresh(pk.data) && pk.data.Length == pk.dataLen
    ensures pk.id != null && fresh(pk.id) && pk.id.Length == pk.idLen
    ensures pk.data != pk.id
    ensures pk.version == old(pk.version) && pk.idLen == old(pk.idLen) && pk.dataLen == old(pk.dataLen)
  {
    pk.data := new byte[pk.dataLen];
    pk.id := new byte[pk.idLen];
  }

  /** `asignify_public_data_free`: both buffers are released and the members cleared. */
  method PublicDataFree(d: PublicData?)
    modifies d
    ensures d != null ==> d.data == null && d.id == null
    ensures d != null ==> d.version == old(d.version) && d.idLen == old(d.idLen) && d.dataLen == old(d.dataLen)
  {
    if d != null {
      d.data := null;
      d.id := null;
    }
  }

  /**
   * The version as the loader reads it: `strtoul` from the last byte of
   * the magic on, stored into an `unsigned int`, and the position where
   * the digits stop.
   */
  function VersionField(text: seq<byte>, magiclen: nat): (r: (int, nat))
    requires 0 < magiclen <= |text|
    ensures 0 <= r.0 < UINT_MODULUS
    ensures magiclen - 1 <= r.1 <= |text|
  {
    var ul := StrToUl(text, magiclen - 1);
    (ul.value % UINT_MODULUS, ul.end)
  }

  /**
   * When the magic ends in ':' (as a `name:` tag does), the digit run read
   * from its last byte is empty: the version reads as 0, and the
   * terminator test sees that very ':'.
   */
  lemma ColonMagicReadsZero(text: seq<byte>, magiclen: nat)
    requires 0 < magiclen <= |text| && text[magiclen - 1] == COLON
    ensures VersionField(text, magiclen) == (0, magiclen - 1)
    ensures At(text, VersionField(text, magiclen).1) == COLON
  {
  }

  /**
   * What `asignify_public_data_load` yields for the first `buflen` bytes of
   * `buf`, read as a C string: none for a buffer no longer than the magic,
   * a different prefix, a version not followed by ':' or outside
   * [verMin, verMax], an id that does not decode to exactly `dataLen`
   * bytes or has no ':' after it, or data that does not decode to exactly
   * `idLen` bytes; otherwise the decoded id and data. (The expected lengths
   * are stored crosswise, so the id is held to `dataLen` and the data to
   * `idLen`.)
   */
  function PublicLoadSpec(buf: seq<byte>, buflen: nat, magic: seq<byte>, magiclen: nat,
                          verMin: uint32, verMax: uint32, idLen: uint32, dataLen: uint32,
                          b64: B64Decoder)
    : (r: Option<(seq<byte>, seq<byte>)>)
    requires buflen <= |buf| && 0 < magiclen <= |magic|
    ensures r.Some? ==> buflen > magiclen && buf[..magiclen] == magic[..magiclen]
    ensures r.Some? ==>
      var (version, end) := VersionField(buf[..buflen], magiclen);
      At(buf[..buflen], end) == COLON && verMin as int <= version <= verMax as int
    ensures r.Some? ==> StrChr(buf[..buflen], magiclen - 1, COLON).Some?
    ensures r.Some? ==> |r.value.0| == dataLen as int && |r.value.1| == idLen as int
  {
    if buflen <= magiclen || buf[..magiclen] != magic[..magiclen] then None
    else
      var text := buf[..buflen];
      var (version, end) := VersionField(text, magiclen);
      if At(text, end) != COLON || version < verMin as int || version > verMax as int then None
      else
        var id := b64(text, magiclen - 1, dataLen as nat, [COLON]);
        if id.None? || |id.value| != dataLen as int then None
        else match StrChr(text, magiclen - 1, COLON)
          case None => None
          case Some(q) =>
            var data := b64(text, q + 1, idLen as nat, []);
            if data.None? || |data.value| != idLen as int then None
            else Some((id.value, data.value))
  }

  /**
   * With a magic that ends in ':', the version always reads as 0, so a
   * loader asked for versions from 1 up refuses every buffer.
   */
  lemma ColonMagicRefusesPositiveVersions(buf: seq<byte>, buflen: nat, magic: seq<byte>, magiclen: nat,
                                          verMin: uint32, verMax: uint32, idLen: uint32, dataLen: uint32,
                                          b64: B64Decoder)
    requires buflen <= |buf| && 0 < magiclen <= |magic|
    requires magic[magiclen - 1] == COLON && verMin > 0
    ensures PublicLoadSpec(buf, buflen, magic, magiclen, verMin, verMax, idLen, dataLen, b64).None?
  {
  }

  /**
   * `asignify_public_data_load`: returns a record exactly when
   * `PublicLoadSpec` yields one, and then it holds the decoded id and data,
   * version 1, `dataLen` set from `idLen` and `idLen` from `dataLen`.
   */
  method PublicDataLoad(buf: seq<byte>, buflen: nat, magic: seq<byte>, magiclen: nat,
                        verMin: uint32, verMax: uint32, idLen: uint32, dataLen: uint32,
                        b64: B64Decoder)
    returns (res: PublicData?)
    requires buflen <= |buf| && 0 < magiclen <= |magic|
    ensures var spec := PublicLoadSpec(buf, buflen, magic, magiclen, verMin, verMax, idLen, dataLen, b64);
      && (res == null <==> spec.None?)
      && (res != null ==>
            && fresh(res) && res.version == 1
            && res.dataLen == idLen as int && res.idLen == dataLen as int
            && res.id != null && res.data != null && res.id != res.data
            && res.id[..] == spec.value.0 && res.data[..] == spec.value.1)
  {
    if buflen <= magiclen || buf[..magiclen] != magic[..magiclen] {
      return null;
    }
    var text := buf[..buflen];
    var p := magiclen - 1;
    var (version, end) := VersionField(text, magiclen);
    if At(text, end) != COLON || version < verMin as int || version > verMax as int {
      return null;
    }
    res := new PublicData();
    res.version := 1;
    res.dataLen := idLen as nat;
    res.idLen := dataLen as nat;
    AllocPublicDataFields(res);
    // Read the id
    var blen := B64PtonStop(b64, text, p, res.id, res.idLen, [COLON]);
    if blen != res.idLen || StrChr(text, p, COLON).None? {
      PublicDataFree(res);
      return null;
    }
    p := StrChr(text, p, COLON).value + 1;
    // Read the data
    blen := B64PtonStop(b64, text, p, res.data, res.dataLen, []);
    if blen != res.dataLen {
      PublicDataFree(res);
      return null;
    }
  }
}
