/**
 * The private-key container driver (`asignify_private_data_load`), over
 * the sequence of buffers its line reader hands it. Each element of
 * `lines` is one buffer as the reader leaves it, all `buflen` bytes of it:
 * the line, its terminating NUL, and whatever else fills the buffer.
 *
 * Because the line parser never changes the record and no field sets
 * `version`, the record is still all zero when the sanity check runs, and
 * the check refuses it: the driver returns null on every input.
 */
module Loader {
  import opened Bytes
  import opened Config
  import opened PrivateKeyRecord
  import opened Parser
  import opened Unlock

  /**
   * `memcmp(buf, PRIVKEY_MAGIC, sizeof(PRIVKEY_MAGIC) - 1) == 0`: the
   * buffer begins with the magic.
   */
  function MagicLine(line: seq<byte>): (r: bool)
    ensures r <==> PRIVKEY_MAGIC <= line
  {
    |line| >= |PRIVKEY_MAGIC| && line[..|PRIVKEY_MAGIC|] == PRIVKEY_MAGIC
  }

  /**
   * `asignify_private_data_load`: the first buffer must carry the magic,
   * every later one must pass the line parser, then the record must be
   * sane before it is unlocked. It returns null whatever it is given.
   */
  method PrivateDataLoad(lines: seq<seq<byte>>, passwordCb: Option<PasswordCallback>,
                         canary: seq<byte>, crypto: Crypto)
    returns (r: PrivateData?)
    requires |canary| == CANARY_LEN
    ensures r == null
  {
    var privk := new PrivateKey();
    var first := true;
    var i := 0;
    while i < |lines|
      invariant 0 <= i <= |lines|
      invariant fresh(privk) && privk.Cleared() && privk.Valid()
    {
      var line := lines[i];
      if first {
        if MagicLine(line) {
          first := false;
        } else {
          return null;
        }
      } else {
        var buf := new byte[|line|](j requires 0 <= j < |line| => line[j]);
        var ok := ParseLine(buf, buf.Length, privk);
        if !ok {
          PrivkeyCleanup(privk);
          return null;
        }
      }
      i := i + 1;
    }
    if !IsSane(privk.Raw()) {
      PrivkeyCleanup(privk);
      return null;
    }
    // The record is all zero here, so it is never sane and the call to
    // `asignify_private_data_unpack_key` that would follow is unreachable.
    assert false;
  }
}
