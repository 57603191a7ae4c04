/**
 * The private-key field schema (`parser_fields`) and its lookup: a binary
 * search whose comparator is `strncmp` over the candidate's length only.
 * The struct-offset destination of each entry is an enumeration of the
 * record's fields.
 */
module Fields {
  import opened Bytes
  import opened Config

  datatype FieldKind = StringField | UintField | HexField

  /** The record member an entry writes (its `struct_offset`). */
  datatype FieldId = Checksum | EncryptedBlob | Id | PbkdfAlg | Rounds | Salt

  datatype ParserField = ParserField(name: seq<byte>, kind: FieldKind, dest: FieldId, requiredLen: nat)

  const CHECKSUM_NAME: seq<byte> := [0x63, 0x68, 0x65, 0x63, 0x6b, 0x73, 0x75, 0x6d] // "checksum"
  const DATA_NAME: seq<byte> := [0x64, 0x61, 0x74, 0x61]                           // "data"
  const ID_NAME: seq<byte> := [0x69, 0x64]                                         // "id"
  const KDF_NAME: seq<byte> := [0x6b, 0x64, 0x66]                                  // "kdf"
  const ROUNDS_NAME: seq<byte> := [0x72, 0x6f, 0x75, 0x6e, 0x64, 0x73]             // "rounds"
  const SALT_NAME: seq<byte> := [0x73, 0x61, 0x6c, 0x74]                           // "salt"

  /** The table, kept sorted by name. `rounds` leaves `required_len` at 0. */
  const ParserFields: seq<ParserField> := [
    ParserField(CHECKSUM_NAME, HexField, Checksum, BLAKE2B_OUTBYTES),
    ParserField(DATA_NAME, HexField, EncryptedBlob, SECRETKEYBYTES),
    ParserField(ID_NAME, HexField, Id, KEY_ID_LEN),
    ParserField(KDF_NAME, StringField, PbkdfAlg, 0),
    ParserField(ROUNDS_NAME, UintField, Rounds, 0),
    ParserField(SALT_NAME, HexField, Salt, SALT_LEN)
  ]

  /**
   * Each kind of entry writes one kind of member: the string entry the KDF
   * name, the unsigned entry the rounds, and every hex entry a buffer whose
   * decoded length is that member's size.
   */
  lemma TableDestinations(f: ParserField)
    requires f in ParserFields
    ensures f.kind == StringField <==> f.dest == PbkdfAlg
    ensures f.kind == UintField <==> f.dest == Rounds
    ensures f.dest == Salt ==> f.requiredLen == SALT_LEN
    ensures f.dest == Checksum ==> f.requiredLen == BLAKE2B_OUTBYTES
    ensures f.dest == Id ==> f.requiredLen == KEY_ID_LEN
    ensures f.dest == EncryptedBlob ==> f.requiredLen == SECRETKEYBYTES
  {
  }

  /** Lexicographic order on byte strings, a proper prefix coming first. */
  predicate LexLess(a: seq<byte>, b: seq<byte>)
  {
    exists k :: 0 <= k <= |a| && k <= |b| && a[..k] == b[..k] &&
      (k == |a| < |b| || (k < |a| && k < |b| && a[k] < b[k]))
  }

  /**
   * The table's names are non-empty and free of NUL, and they begin with
   * six distinct bytes in increasing order.
   */
  lemma TableShape()
    ensures |ParserFields| == 6
    ensures forall i :: 0 <= i < |ParserFields| ==>
      |ParserFields[i].name| > 0 && NUL !in ParserFields[i].name
    ensures forall i, j :: 0 <= i < j < |ParserFields| ==>
      ParserFields[i].name[0] < ParserFields[j].name[0]
  {
  }

  lemma FirstByteLess(a: seq<byte>, b: seq<byte>)
    requires |a| > 0 && |b| > 0 && a[0] < b[0]
    ensures LexLess(a, b)
  {
  }

  /** "Keep sorted by field name": the table is strictly increasing. */
  lemma TableSorted()
    ensures forall i, j :: 0 <= i < j < |ParserFields| ==>
      LexLess(ParserFields[i].name, ParserFields[j].name)
  {
    TableShape();
    forall i, j | 0 <= i < j < |ParserFields|
      ensures LexLess(ParserFields[i].name, ParserFields[j].name)
    {
      FirstByteLess(ParserFields[i].name, ParserFields[j].name);
    }
  }

  /** `s` has no NUL at positions `i` up to but excluding `j`. */
  predicate NoNulBetween(s: seq<byte>, i: nat, j: nat)
  {
    forall k :: i <= k < j ==> At(s, k) != NUL
  }

  /**
   * The C strings at `i` in `s1` and `s2` agree on every position before
   * `n`, up to and including the first NUL of `s1`.
   */
  predicate AgreeFrom(s1: seq<byte>, s2: seq<byte>, i: nat, n: nat)
  {
    forall j :: i <= j < n && NoNulBetween(s1, i, j) ==> At(s1, j) == At(s2, j)
  }

  /**
   * `strncmp(s1, s2, n)` from position `i` on: compares bytes as unsigned
   * until they differ, both reach NUL, or `n` bytes have been compared.
   * The result is the difference of two unsigned bytes, and it is 0
   * exactly when the two strings agree that far.
   */
  function StrnCmpFrom(s1: seq<byte>, s2: seq<byte>, i: nat, n: nat): (r: int)
    ensures -255 <= r <= 255
    ensures r == 0 <==> AgreeFrom(s1, s2, i, n)
    decreases n - i
  {
    if i >= n then 0
    else if At(s1, i) != At(s2, i) then
      assert NoNulBetween(s1, i, i);
      At(s1, i) as int - At(s2, i) as int
    else if At(s1, i) == NUL then
      assert forall j :: i < j ==> !NoNulBetween(s1, i, j);
      0
    else
      var r := StrnCmpFrom(s1, s2, i + 1, n);
      assert forall j :: i < j ==> NoNulBetween(s1, i, j) == NoNulBetween(s1, i + 1, j);
      r
  }

  /**
   * `asignify_parser_fields_cmp`: `strncmp(key->begin, p->field_name, key->len)`.
   * For NUL-free strings it reports equality exactly when the candidate is
   * a prefix of the entry's name.
   */
  function FieldsCmp(key: seq<byte>, f: ParserField): (r: int)
    ensures -255 <= r <= 255
    ensures NUL !in key && NUL !in f.name ==> (r == 0 <==> key <= f.name)
  {
    var r := StrnCmpFrom(key, f.name, 0, |key|);
    if NUL in key || NUL in f.name then r
    else StrnCmpFromZero(key, f.name, 0); r
  }

  /** Entry `i` is selected by `key`: the comparator reports equality. */
  predicate Selects(key: seq<byte>, i: nat)
    requires i < |ParserFields|
  {
    FieldsCmp(key, ParserFields[i]) == 0
  }

  predicate HasMatch(key: seq<byte>)
  {
    exists i :: 0 <= i < |ParserFields| && Selects(key, i)
  }

  lemma {:induction false} StrnCmpFromZero(key: seq<byte>, name: seq<byte>, i: nat)
    requires NUL !in key && NUL !in name
    requires i <= |key| && i <= |name|
    ensures StrnCmpFrom(key, name, i, |key|) == 0 <==>
      (|key| <= |name| && key[i..] == name[i..|key|])
    decreases |key| - i
  {
    if i < |key| {
      assert key[i] != NUL;
      if i < |name| && key[i] == name[i] {
        StrnCmpFromZero(key, name, i + 1);
        assert |key| <= |name| ==> key[i..] == [key[i]] + key[i + 1..];
        assert |key| <= |name| ==> name[i..|key|] == [name[i]] + name[i + 1..|key|];
      } else if |key| <= |name| {
        assert key[i..][0] != name[i..|key|][0];
      }
    }
  }

  /**
   * A candidate without NUL bytes selects a table entry exactly when it is
   * no longer than the entry's name and equals that many leading bytes of
   * it: a prefix of a name selects the name.
   */
  lemma SelectsIff(key: seq<byte>, i: nat)
    requires NUL !in key && i < |ParserFields|
    ensures Selects(key, i) <==>
      (|key| <= |ParserFields[i].name| && key == ParserFields[i].name[..|key|])
  {
    TableShape();
    StrnCmpFromZero(key, ParserFields[i].name, 0);
  }

  /** The comparator's verdict on a non-empty candidate is fixed by its first byte. */
  lemma FirstByteDecides(key: seq<byte>, f: ParserField)
    requires |key| > 0 && |f.name| > 0
    ensures FieldsCmp(key, f) == 0 ==> key[0] == f.name[0]
    ensures FieldsCmp(key, f) < 0 ==> key[0] <= f.name[0]
    ensures FieldsCmp(key, f) > 0 ==> key[0] >= f.name[0]
  {
  }

  /** Since the six names begin with distinct bytes, a non-empty candidate selects at most one entry. */
  lemma SelectsUnique(key: seq<byte>, i: nat, j: nat)
    requires |key| > 0 && i < |ParserFields| && j < |ParserFields|
    requires Selects(key, i) && Selects(key, j)
    ensures i == j
  {
  }

  /** The comparator agrees with the table order, which is what a binary search needs. */
  lemma CmpMonotone(key: seq<byte>, m: nat)
    requires m < |ParserFields|
    ensures FieldsCmp(key, ParserFields[m]) < 0 ==>
      forall j :: m <= j < |ParserFields| ==> !Selects(key, j)
    ensures FieldsCmp(key, ParserFields[m]) > 0 ==>
      forall j :: 0 <= j <= m ==> !Selects(key, j)
  {
    TableShape();
    if |key| > 0 {
      forall j | 0 <= j < |ParserFields| {
        FirstByteDecides(key, ParserFields[j]);
      }
    }
  }

  /**
   * `bsearch(&k, parser_fields, 6, ..., asignify_parser_fields_cmp)`: the
   * index of an entry the comparator calls equal, or none when there is none.
   */
  method BSearch(key: seq<byte>) returns (r: Option<nat>)
    ensures r.Some? ==> r.value < |ParserFields| && Selects(key, r.value)
    ensures r.None? ==> forall i :: 0 <= i < |ParserFields| ==> !Selects(key, i)
  {
    var lo, hi := 0, |ParserFields|;
    while lo < hi
      invariant 0 <= lo <= hi <= |ParserFields|
      invariant forall i :: 0 <= i < lo ==> !Selects(key, i)
      invariant forall i :: hi <= i < |ParserFields| ==> !Selects(key, i)
    {
      var idx := (lo + hi) / 2;
      var cmp := FieldsCmp(key, ParserFields[idx]);
      CmpMonotone(key, idx);
      if cmp < 0 {
        hi := idx;
      } else if cmp > 0 {
        lo := idx + 1;
      } else {
        return Some(idx);
      }
    }
    return None;
  }

  /** For example, the one-byte candidate "d" selects "data". */
  lemma PrefixSelectsData()
    ensures Selects([0x64], 1)
    ensures forall i :: 0 <= i < |ParserFields| && i != 1 ==> !Selects([0x64], i)
  {
  }
}
