/**
 * The line parser of the private-key container: the per-field value
 * interpreter (`asignify_private_data_parse_value`) and the byte-by-byte
 * state machine (`asignify_private_data_parse_line`). The state machine is
 * proved to accept exactly the lines described by `LineAccepted`: a known
 * field name (or a prefix of one), its colon, and nothing but white space
 * after it. In particular it never hands a value to the interpreter and
 * never changes the record.
 */
module Parser {
  import opened Bytes
  import opened Fields
  import opened PrivateKeyRecord
  import opened Externals

  /** The machine's states, in the order of the C enumeration. */
  datatype ParseState = InName | AtSemicolon | InValue | InSpaces | Failed

  // ----- what the machine accepts -----

  /** A byte that may continue a field name: printable, not a space, not ':'. */
  predicate NameByte(b: byte) { IsGraph(b) && b != COLON }

  /** The end of the run of name bytes starting at `i`. */
  function NameRunEnd(line: seq<byte>, i: nat): (n: nat)
    requires i <= |line|
    ensures i <= n <= |line|
    ensures forall j :: i <= j < n ==> NameByte(line[j])
    ensures n == |line| || !NameByte(line[n])
    decreases |line| - i
  {
    if i < |line| && NameByte(line[i]) then NameRunEnd(line, i + 1) else i
  }

  /**
   * A buffer the parser accepts: a non-empty name the field table selects,
   * a colon right after it, and white space up to the end of the buffer.
   */
  predicate LineAccepted(line: seq<byte>)
  {
    var n := NameRunEnd(line, 0);
    && 0 < n < |line|
    && line[n] == COLON
    && HasMatch(line[..n])
    && forall j :: n < j < |line| ==> IsSpace(line[j])
  }

  /**
   * A buffer with a NUL anywhere in it is refused: NUL is neither a name
   * byte, a colon nor white space.
   */
  lemma NulBufferRejected(line: seq<byte>, z: nat)
    requires z < |line| && line[z] == NUL
    ensures !LineAccepted(line)
  {
  }

  /** A run of name bytes that stops at `p` ends there. */
  lemma NameRunEndsAt(line: seq<byte>, p: nat)
    requires p <= |line|
    requires forall j :: 0 <= j < p ==> NameByte(line[j])
    requires p == |line| || !NameByte(line[p])
    ensures NameRunEnd(line, 0) == p
  {
  }

  /**
   * A line of the form `name: value`, with a non-blank value,
   * is refused whatever the name.
   */
  lemma ValueLineRejected(line: seq<byte>, j: nat)
    requires NameRunEnd(line, 0) < j < |line| && !IsSpace(line[j])
    ensures !LineAccepted(line)
  {
  }

  /** The decoded length a hex value must have is checked as `len / 2`: one extra digit is let through. */
  lemma HexLengthAcceptsOdd(len: nat, required: nat)
    ensures len / 2 == required <==> len == 2 * required || len == 2 * required + 1
  {
  }

  // ----- the value interpreter -----

  /**
   * `asignify_private_data_parse_value` on the `len` bytes at `off`.
   * A string field is stored as a fresh buffer of `len + 1` bytes whose
   * first byte is then overwritten with NUL, so the stored C string is
   * always empty. A hex field is refused unless `len / 2` is the table's
   * length; otherwise a fresh buffer of that length is decoded into, and a
   * decoding failure leaves the member null. An unsigned field takes the
   * `strtoul` value truncated to 32 bits and fails only on overflow.
   */
  method ParseValue(buf: array<byte>, off: nat, len: nat, parser: ParserField, privk: PrivateKey)
    returns (ok: bool)
    requires parser in ParserFields
    requires off + len <= buf.Length
    requires privk.Valid()
    modifies privk
    ensures privk.Valid()
    ensures privk.version == old(privk.version)
    ensures parser.kind != UintField ==> privk.rounds == old(privk.rounds)
    ensures parser.dest != Checksum ==> privk.checksum == old(privk.checksum)
    ensures parser.dest != EncryptedBlob ==> privk.encryptedBlob == old(privk.encryptedBlob)
    ensures parser.dest != Id ==> privk.id == old(privk.id)
    ensures parser.dest != PbkdfAlg ==> privk.pbkdfAlg == old(privk.pbkdfAlg)
    ensures parser.dest != Salt ==> privk.salt == old(privk.salt)
    ensures parser.kind == StringField ==>
      var a := privk.BytesField(parser.dest);
      && ok && a != null && fresh(a) && a.Length == len + 1
      && a[0] == NUL && CStr(a[..]) == []
      && forall j :: 1 <= j < len ==> a[j] == buf[off + j]
    ensures parser.kind == HexField && len / 2 != parser.requiredLen ==>
      !ok && unchanged(privk)
    ensures parser.kind == HexField && len / 2 == parser.requiredLen ==>
      var a := privk.BytesField(parser.dest);
      && (ok ==> a != null && fresh(a) && a.Length == parser.requiredLen)
      && (!ok ==> a == null)
    ensures parser.kind == UintField ==>
      var r := StrToUl(buf[..], off);
      privk.rounds == r.value % UINT_MODULUS && (ok <==> !r.overflow)
  {
    TableDestinations(parser);
    match parser.kind
    case StringField =>
      var s := new byte[len + 1];
      forall i | 0 <= i < len {
        s[i] := buf[off + i];
      }
      s[0] := NUL;
      privk.SetBytesField(parser.dest, s);
      ok := true;
    case HexField =>
      if len / 2 != parser.requiredLen {
        return false;
      }
      var h := new byte[len / 2];
      privk.SetBytesField(parser.dest, h);
      var rc := Hex2Bin(h, len / 2, buf[off..off + len]);
      if rc == -1 {
        privk.SetBytesField(parser.dest, null);
        return false;
      }
      ok := true;
    case UintField =>
      var r := StrToUl(buf[..], off);
      privk.rounds := r.value % UINT_MODULUS;
      ok := !r.overflow;
  }

  // ----- the state machine -----

  /**
   * One step of the machine in the value state, at byte `p` of a value
   * that began at `c`. Without a selected field the machine fails; an
   * unsigned field fails on the first non-digit, which includes the
   * newline, so such a value is never handed over; otherwise a newline
   * hands the value to the interpreter and any other byte is skipped.
   * The step fails at a newline exactly when the interpreter refuses the
   * value: never for the string field, always for a hex value of the wrong
   * length, and for one of the right length when decoding fails, which
   * leaves the member null.
   */
  method ValueStep(buf: array<byte>, buflen: nat, c: nat, p: nat, parser: Option<ParserField>,
                   nextState: ParseState, privk: PrivateKey)
    returns (state': ParseState, next': ParseState, p': nat)
    requires c <= p < buflen <= buf.Length
    requires parser.Some? ==> parser.value in ParserFields
    requires privk.Valid()
    modifies privk
    ensures privk.Valid()
    ensures privk.version == old(privk.version)
    ensures parser.None? || parser.value.kind != UintField ==> privk.rounds == old(privk.rounds)
    ensures parser.None? || parser.value.dest != Checksum ==> privk.checksum == old(privk.checksum)
    ensures parser.None? || parser.value.dest != EncryptedBlob ==> privk.encryptedBlob == old(privk.encryptedBlob)
    ensures parser.None? || parser.value.dest != Id ==> privk.id == old(privk.id)
    ensures parser.None? || parser.value.dest != PbkdfAlg ==> privk.pbkdfAlg == old(privk.pbkdfAlg)
    ensures parser.None? || parser.value.dest != Salt ==> privk.salt == old(privk.salt)
    ensures parser.None? ==> state' == Failed && p' == p && unchanged(privk)
    ensures parser.Some? && parser.value.kind == UintField ==> state' != InSpaces
    ensures parser.Some? && parser.value.kind == UintField && !IsDigit(buf[p]) ==>
      state' == Failed && p' == p && unchanged(privk)
    ensures parser.Some? && !(parser.value.kind == UintField && !IsDigit(buf[p])) ==>
      if buf[p] == NEWLINE then
        p' == p && (state' == Failed || (state' == InSpaces && next' == InName))
      else
        state' == InValue && next' == nextState && p' == p + 1 && unchanged(privk)
    ensures parser.Some? && parser.value.kind == StringField && buf[p] == NEWLINE ==>
      var a := privk.pbkdfAlg;
      && state' == InSpaces && next' == InName
      && a != null && fresh(a) && a.Length == p - c + 1 && CStr(a[..]) == []
    ensures parser.Some? && parser.value.kind == HexField && buf[p] == NEWLINE ==>
      var f, a := parser.value, privk.BytesField(parser.value.dest);
      if (p - c) / 2 != f.requiredLen then
        state' == Failed && unchanged(privk)
      else
        && (state' == InSpaces ==> a != null && fresh(a) && a.Length == f.requiredLen)
        && (state' == Failed ==> a == null)
  {
    state', next', p' := InValue, nextState, p;
    if parser.None? {
      state' := Failed;
    } else if parser.value.kind == UintField && !IsDigit(buf[p]) {
      state' := Failed;
    } else if buf[p] == NEWLINE {
      var ok := ParseValue(buf, c, p - c, parser.value, privk);
      if !ok {
        state' := Failed;
      } else {
        state', next' := InSpaces, InName;
      }
    } else {
      p' := p + 1;
    }
  }

  /** A measure that falls with every step that does not advance. */
  function StateRank(s: ParseState, b: byte): nat
  {
    match s
    case Failed => 0
    case AtSemicolon => 1
    case InName => 2
    case InValue => 3
    case InSpaces => if IsSpace(b) then 0 else 4
  }

  /**
   * `asignify_private_data_parse_line` over the first `buflen` bytes of
   * `buf`: true exactly for the buffers `LineAccepted` describes, and the
   * record is left as it was.
   */
  method ParseLine(buf: array<byte>, buflen: nat, privk: PrivateKey) returns (ok: bool)
    requires buflen <= buf.Length
    requires privk.Valid()
    modifies privk
    ensures ok == LineAccepted(buf[..buflen])
    ensures unchanged(privk)
  {
    ghost var line := buf[..buflen];
    var state, nextState := InName, InName;
    var parser: Option<ParserField> := None;
    var p, c := 0, 0;
    while p < buflen
      invariant 0 <= c <= p <= buflen
      invariant unchanged(privk)
      invariant state == InName ==> c == 0 && forall j :: 0 <= j < p ==> NameByte(line[j])
      invariant state == AtSemicolon ==>
        && p == NameRunEnd(line, 0) && 0 < p < buflen
        && line[p] == COLON && HasMatch(line[..p])
      invariant state == InSpaces ==>
        var n := NameRunEnd(line, 0);
        && nextState == InValue
        && 0 < n < p && line[n] == COLON && HasMatch(line[..n])
        && forall j :: n < j < p ==> IsSpace(line[j])
      invariant state == InValue ==> parser.None? && !LineAccepted(line)
      invariant state == Failed ==> !LineAccepted(line)
      decreases buflen - p, StateRank(state, if p < buflen then buf[p] else NUL)
    {
      match state
      case InName =>
        assert line[p] == buf[p];
        if buf[p] == COLON {
          NameRunEndsAt(line, p);
          if p - c > 0 {
            parser := None;
            assert buf[c..p] == line[..p];
            var idx := BSearch(buf[c..p]);
            if idx.None? {
              state := Failed;
            } else {
              assert Selects(line[..p], idx.value);
              parser := Some(ParserFields[idx.value]);
              state := AtSemicolon;
            }
          } else {
            state := Failed;
          }
        } else if !IsGraph(buf[p]) {
          NameRunEndsAt(line, p);
          state := Failed;
        } else {
          p := p + 1;
        }
      case AtSemicolon =>
        if buf[p] == COLON {
          p := p + 1;
          state, nextState := InSpaces, InValue;
        } else {
          state := Failed;
        }
      case InValue =>
        state, nextState, p := ValueStep(buf, buflen, c, p, parser, nextState, privk);
      case InSpaces =>
        if IsSpace(buf[p]) {
          p := p + 1;
        } else {
          c := p;
          state := nextState;
          parser := None;
        }
      case Failed =>
        return false;
    }
    ok := state == InSpaces;
  }
}
