/**
 * The C library and codec routines the container code calls. `strtoul`
 * (digit runs only) and `strchr` are modelled by what they compute. The
 * body of `hex2bin` is not part of this model, so it is a method that may
 * produce any outcome its result codes allow. The body of `b64_pton_stop`
 * is not part of this model either: what it decodes is a function value,
 * `B64Decoder`, that callers receive as a parameter and are proved correct
 * for.
 */
module Externals {
  import opened Bytes

  /** The end of the run of decimal digits that starts at `i`. */
  function DigitRunEnd(s: seq<byte>, i: nat): (e: nat)
    requires i <= |s|
    ensures i <= e <= |s|
    ensures forall j :: i <= j < e ==> IsDigit(s[j])
    ensures e == |s| || !IsDigit(s[e])
    decreases |s| - i
  {
    if i < |s| && IsDigit(s[i]) then DigitRunEnd(s, i + 1) else i
  }

  /** The number a run of decimal digits denotes. */
  function DecimalValue(digits: seq<byte>): nat
  {
    if digits == [] then 0
    else DecimalValue(digits[..|digits| - 1]) * 10 + (digits[|digits| - 1] - 0x30) as int
  }

  /** What `strtoul` reports: the value, where parsing stopped, and whether `errno` was set. */
  datatype UlResult = UlResult(value: nat, end: nat, overflow: bool)

  /**
   * `strtoul(s + i, &end, 10)` on a string that starts with its digits:
   * the digit run is consumed whole; a value above `ULONG_MAX` is reported
   * as `ULONG_MAX` with `errno` set to `ERANGE`.
   */
  function StrToUl(s: seq<byte>, i: nat): (r: UlResult)
    requires i <= |s|
    ensures r.end == DigitRunEnd(s, i)
    ensures r.value <= ULONG_MAX
    ensures r.overflow <==> DecimalValue(s[i..r.end]) > ULONG_MAX
    ensures !r.overflow ==> r.value == DecimalValue(s[i..r.end])
  {
    var e := DigitRunEnd(s, i);
    var v := DecimalValue(s[i..e]);
    if v > ULONG_MAX then UlResult(ULONG_MAX, e, true) else UlResult(v, e, false)
  }

  /**
   * `strchr(s + from, c)` for a non-NUL `c`: the first position holding `c`
   * before the string's terminator, if any.
   */
  function StrChr(s: seq<byte>, from: nat, c: byte): (r: Option<nat>)
    requires c != NUL
    ensures r.Some? ==> from <= r.value < |s| && s[r.value] == c
    ensures r.Some? ==> forall j :: from <= j < r.value ==> s[j] != c && s[j] != NUL
    ensures r.None? ==> forall j :: from <= j < |s| && s[j] == c ==>
                          exists k :: from <= k < j && s[k] == NUL
    decreases |s| - from
  {
    if from >= |s| || s[from] == NUL then None
    else if s[from] == c then Some(from)
    else StrChr(s, from + 1, c)
  }

  /** Overwrites `a` with bytes about which nothing is known. */
  method Scribble(a: array<byte>)
    modifies a
  {
    assert |Zeros(a.Length)| == a.Length;
    var bytes: seq<byte> :| |bytes| == a.Length;
    forall i | 0 <= i < a.Length {
      a[i] := bytes[i];
    }
  }

  /**
   * `hex2bin(bin, bin_maxlen, hex, hex_len, NULL, NULL)`: decodes hex text
   * into `bin`, reporting 0 on success and -1 on failure.
   */
  method Hex2Bin(bin: array<byte>, binMaxlen: nat, hex: seq<byte>) returns (rc: int)
    requires binMaxlen <= bin.Length
    modifies bin
    ensures rc == 0 || rc == -1
  {
    rc :| rc == 0 || rc == -1;
    Scribble(bin);
  }

  /**
   * What `b64_pton_stop(src + from, target, targsize, stop)` decodes from
   * the base64 text that runs up to a byte of `stop` or the terminator:
   * at most `targsize` bytes, or none when it refuses the text.
   */
  type B64Decoder = f: (seq<byte>, nat, nat, seq<byte>) -> Option<seq<byte>>
    | forall src, from, targsize, stop :: f(src, from, targsize, stop).Some? ==>
        |f(src, from, targsize, stop).value| <= targsize
    witness (src: seq<byte>, from: nat, targsize: nat, stop: seq<byte>) => None

  /**
   * `b64_pton_stop(src + from, target, targsize, stop)`: writes what the
   * decoder yields at the start of `target` and returns its length, or
   * returns -1 with `target` holding anything.
   */
  method B64PtonStop(b64: B64Decoder, src: seq<byte>, from: nat, target: array<byte>,
                     targsize: nat, stop: seq<byte>)
    returns (n: int)
    requires targsize <= target.Length
    modifies target
    ensures -1 <= n <= targsize
    ensures var d := b64(src, from, targsize, stop);
      && (n == -1 <==> d.None?)
      && (d.Some? ==> n == |d.value| && target[..n] == d.value)
  {
    var d := b64(src, from, targsize, stop);
    if d.None? {
      Scribble(target);
      return -1;
    }
    forall i | 0 <= i < |d.value| {
      target[i] := d.value[i];
    }
    n := |d.value|;
  }
}
