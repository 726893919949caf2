/** The provisioning undo journal: src/config/ProvisioningTransaction.cpp. */
module ProvisioningTransaction {
  import opened Bytes
  import Crc32

  const JOURNAL_MAGIC: u32 := 0x54504D50
  const JOURNAL_VERSION: nat := 1
  const HEADER_SIZE: nat := 20
  const MAXIMUM_TOKEN_LENGTH: nat := 256
  const MAXIMUM_CREDENTIAL_PART_LENGTH: nat := 64

  datatype Journal = Journal(previousGeneration: u64, token: seq<byte>, salt: seq<byte>, hash: seq<byte>)
  {
    predicate Encodable()
    {
      && previousGeneration != 0
      && |token| <= MAXIMUM_TOKEN_LENGTH
      && |salt| <= MAXIMUM_CREDENTIAL_PART_LENGTH
      && |hash| <= MAXIMUM_CREDENTIAL_PART_LENGTH
    }

    /** No part was absent, so restoring it writes all three. */
    predicate Full() { token != [] && salt != [] && hash != [] }
  }

  datatype RecoveryAction = RestoreCredentials | RollbackConfigAndRestoreCredentials | Conflict

  function RecoveryActionFor(previous: u64, active: u64): RecoveryAction
  {
    if previous == 0 || active < previous then Conflict
    else if active == previous then RestoreCredentials
    else RollbackConfigAndRestoreCredentials
  }

  // ----- layout --------------------------------------------------------------------------

  function FieldBytes(value: seq<byte>): seq<byte>
  {
    LittleEndian(|value|, 2) + value
  }

  function JournalHeader(j: Journal): (s: seq<byte>)
    ensures |s| == 16
  {
    LittleEndian(JOURNAL_MAGIC, 4) + LittleEndian(JOURNAL_VERSION, 2) + LittleEndian(0, 2)
    + LittleEndian(j.previousGeneration, 8)
  }

  function JournalBody(j: Journal): seq<byte>
  {
    JournalHeader(j) + FieldBytes(j.token) + FieldBytes(j.salt) + FieldBytes(j.hash)
  }

  /** The stored journal; empty when the snapshot cannot be represented. */
  function JournalBytes(j: Journal): seq<byte>
  {
    if j.Encodable() then JournalBody(j) + LittleEndian(Crc32.Checksum(JournalBody(j)), 4) else []
  }

  /** A length-prefixed field at `cursor` and the position after it; the last four bytes are off limits. */
  function FieldFrom(input: seq<byte>, cursor: nat, maximum: nat): (r: Option<(seq<byte>, nat)>)
    ensures r.Some? ==> cursor <= r.value.1 <= |input|
  {
    match FieldAt(input, cursor, 2)
    case None => None
    case Some(length) =>
      if length > maximum || cursor + 2 + length > |input| - 4 then None
      else Some((input[cursor + 2..cursor + 2 + length], cursor + 2 + length))
  }

  function JournalFrom(e: seq<byte>): Option<Journal>
  {
    if |e| < HEADER_SIZE then None
    else
      var end := |e| - 4;
      if || FromLittleEndian(e[0..4]) != JOURNAL_MAGIC
         || FromLittleEndian(e[4..6]) != JOURNAL_VERSION
         || FromLittleEndian(e[8..16]) == 0
         || Crc32.Checksum(e[..end]) != FromLittleEndian(e[end..])
      then None
      else FieldsFrom(e, Wide(e[8..16]))
  }

  function FieldsFrom(e: seq<byte>, previous: u64): Option<Journal>
    requires |e| >= HEADER_SIZE
  {
    match FieldFrom(e, 16, MAXIMUM_TOKEN_LENGTH)
    case None => None
    case Some((token, c1)) =>
      match FieldFrom(e, c1, MAXIMUM_CREDENTIAL_PART_LENGTH)
      case None => None
      case Some((salt, c2)) =>
        match FieldFrom(e, c2, MAXIMUM_CREDENTIAL_PART_LENGTH)
        case None => None
        case Some((hash, c3)) =>
          if c3 == |e| - 4 then Some(Journal(previous, token, salt, hash)) else None
  }

  // ----- round trip ----------------------------------------------------------------------

  lemma FieldRoundTrip(before: seq<byte>, value: seq<byte>, after: seq<byte>, maximum: nat)
    requires |value| <= maximum < 0x1_0000 && |after| >= 4
    ensures FieldFrom(before + FieldBytes(value) + after, |before|, maximum)
         == Some((value, |before| + 2 + |value|))
  {
    var e := before + FieldBytes(value) + after;
    assert e[|before|..|before| + 2] == LittleEndian(|value|, 2);
    assert e[|before| + 2..|before| + 2 + |value|] == value;
    Widths();
    ReadBack(|value|, 2);
  }

  lemma Regroup(h: seq<byte>, t: seq<byte>, s: seq<byte>, x: seq<byte>, c: seq<byte>)
    ensures h + t + s + x + c == h + t + (s + x + c)
    ensures h + t + s + x + c == (h + t) + s + (x + c)
  {
  }

  lemma FieldsRoundTrip(h: seq<byte>, j: Journal, crc: seq<byte>)
    requires j.Encodable() && |h| == 16 && |crc| == 4
    ensures FieldsFrom(h + FieldBytes(j.token) + FieldBytes(j.salt) + FieldBytes(j.hash) + crc,
                       j.previousGeneration) == Some(j)
  {
    var t, s, x := FieldBytes(j.token), FieldBytes(j.salt), FieldBytes(j.hash);
    var e := h + t + s + x + crc;
    Regroup(h, t, s, x, crc);
    FieldRoundTrip(h, j.token, s + x + crc, MAXIMUM_TOKEN_LENGTH);
    FieldRoundTrip(h + t, j.salt, x + crc, MAXIMUM_CREDENTIAL_PART_LENGTH);
    FieldRoundTrip(h + t + s, j.hash, crc, MAXIMUM_CREDENTIAL_PART_LENGTH);
    assert FieldFrom(e, 16, MAXIMUM_TOKEN_LENGTH) == Some((j.token, |h + t|));
    assert FieldFrom(e, |h + t|, MAXIMUM_CREDENTIAL_PART_LENGTH) == Some((j.salt, |h + t + s|));
    assert FieldFrom(e, |h + t + s|, MAXIMUM_CREDENTIAL_PART_LENGTH) == Some((j.hash, |h + t + s + x|));
  }

  /** Every journal the encoder accepts decodes to itself. */
  lemma JournalRoundTrip(j: Journal)
    requires j.Encodable()
    ensures JournalFrom(JournalBytes(j)) == Some(j)
  {
    var e := JournalBytes(j);
    assert e[..|e| - 4] == JournalBody(j);
    assert e[|e| - 4..] == LittleEndian(Crc32.Checksum(JournalBody(j)), 4);
    JournalFixedFields(j);
    Widths();
    ReadBack(JOURNAL_MAGIC, 4);
    ReadBack(JOURNAL_VERSION, 2);
    ReadBack(j.previousGeneration, 8);
    ReadBack(Crc32.Checksum(JournalBody(j)), 4);
    FieldsRoundTrip(JournalHeader(j), j, LittleEndian(Crc32.Checksum(JournalBody(j)), 4));
  }

  lemma JournalFixedFields(j: Journal)
    requires j.Encodable()
    ensures var e := JournalBytes(j);
            && |e| >= HEADER_SIZE
            && e[0..4] == LittleEndian(JOURNAL_MAGIC, 4)
            && e[4..6] == LittleEndian(JOURNAL_VERSION, 2)
            && e[8..16] == LittleEndian(j.previousGeneration, 8)
  {
    var h := JournalHeader(j);
    var e := JournalBytes(j);
    assert e[..16] == h;
    assert e[0..4] == h[0..4] == LittleEndian(JOURNAL_MAGIC, 4);
    assert e[4..6] == h[4..6] == LittleEndian(JOURNAL_VERSION, 2);
    assert e[8..16] == h[8..16] == LittleEndian(j.previousGeneration, 8);
  }

  /** A field that is taken is the prefix of its length followed by its bytes, and keeps to the maximum. */
  lemma TakenField(e: seq<byte>, cursor: nat, maximum: nat)
    requires FieldFrom(e, cursor, maximum).Some?
    ensures var (value, next) := FieldFrom(e, cursor, maximum).value;
            |value| <= maximum && next <= |e| - 4 && e[cursor..next] == FieldBytes(value)
  {
    WriteBack(e[cursor..cursor + 2]);
    var (value, next) := FieldFrom(e, cursor, maximum).value;
    assert e[cursor..next] == e[cursor..cursor + 2] + e[cursor + 2..next];
  }

  lemma Pieces(e: seq<byte>, a: nat, b: nat, c: nat, d: nat)
    requires a <= b <= c <= d <= |e|
    ensures e[a..d] == e[a..b] + e[b..c] + e[c..d]
  {
  }

  lemma TakenFields(e: seq<byte>, previous: u64)
    requires |e| >= HEADER_SIZE && FieldsFrom(e, previous).Some?
    ensures var j := FieldsFrom(e, previous).value;
            && j.previousGeneration == previous && |j.token| <= 256 && |j.salt| <= 64 && |j.hash| <= 64
            && e[16..|e| - 4] == FieldBytes(j.token) + FieldBytes(j.salt) + FieldBytes(j.hash)
  {
    var c1 := FieldFrom(e, 16, MAXIMUM_TOKEN_LENGTH).value.1;
    var c2 := FieldFrom(e, c1, MAXIMUM_CREDENTIAL_PART_LENGTH).value.1;
    TakenField(e, 16, MAXIMUM_TOKEN_LENGTH);
    TakenField(e, c1, MAXIMUM_CREDENTIAL_PART_LENGTH);
    TakenField(e, c2, MAXIMUM_CREDENTIAL_PART_LENGTH);
    Pieces(e, 16, c1, c2, |e| - 4);
  }

  /** Whatever decodes can be encoded, and is what that gives, but for the reserved bytes and so the checksum. */
  lemma JournalCanonical(e: seq<byte>)
    requires JournalFrom(e).Some?
    ensures var j := JournalFrom(e).value;
            && j.Encodable() && |JournalBytes(j)| == |e|
            && JournalBytes(j)[..6] == e[..6] && JournalBytes(j)[8..|e| - 4] == e[8..|e| - 4]
            && (e[6..8] == LittleEndian(0, 2) ==> JournalBytes(j) == e)
  {
    var j, end := JournalFrom(e).value, |e| - 4;
    TakenFields(e, Wide(e[8..16]));
    WriteBack(e[0..4]);
    WriteBack(e[4..6]);
    WriteBack(e[8..16]);
    WriteBack(e[end..]);
    CanonicalBody(e, j);
  }

  lemma CanonicalBody(e: seq<byte>, j: Journal)
    requires |e| >= HEADER_SIZE && j.Encodable()
    requires e[0..4] == LittleEndian(JOURNAL_MAGIC, 4) && e[4..6] == LittleEndian(JOURNAL_VERSION, 2)
    requires e[8..16] == LittleEndian(j.previousGeneration, 8)
    requires e[16..|e| - 4] == FieldBytes(j.token) + FieldBytes(j.salt) + FieldBytes(j.hash)
    requires e[|e| - 4..] == LittleEndian(Crc32.Checksum(e[..|e| - 4]), 4)
    ensures |JournalBytes(j)| == |e|
    ensures JournalBytes(j)[..6] == e[..6] && JournalBytes(j)[8..|e| - 4] == e[8..|e| - 4]
    ensures e[6..8] == LittleEndian(0, 2) ==> JournalBytes(j) == e
  {
    hide FieldBytes, LittleEndian;
    var end, fields := |e| - 4, FieldBytes(j.token) + FieldBytes(j.salt) + FieldBytes(j.hash);
    var before, previous := LittleEndian(JOURNAL_MAGIC, 4) + LittleEndian(JOURNAL_VERSION, 2),
                            LittleEndian(j.previousGeneration, 8);
    Pieces(e, 0, 4, 6, 6);
    Pieces(e, 8, 16, end, end);
    var body := JournalBody(j);
    assert body == before + LittleEndian(0, 2) + (previous + fields);
    Reassembled(e, body, before, LittleEndian(0, 2), previous + fields);
    hide JournalBody, JournalHeader;
    var crc := LittleEndian(Crc32.Checksum(body), 4);
    assert JournalBytes(j) == body + crc;
    assert (body + crc)[..6] == body[..6] && (body + crc)[8..end] == body[8..];
    if e[6..8] == LittleEndian(0, 2) {
      assert e == e[..end] + e[end..];
    }
  }

  lemma Reassembled(e: seq<byte>, body: seq<byte>, before: seq<byte>, zero: seq<byte>, rest: seq<byte>)
    requires |before| == 6 && |zero| == 2 && body == before + zero + rest && |e| == |body| + 4
    requires e[..6] == before && e[8..|e| - 4] == rest
    ensures body[..6] == e[..6] && body[8..] == e[8..|e| - 4]
    ensures e[6..8] == zero ==> e[..|e| - 4] == body
  {
    Pieces(e, 0, 6, 8, |e| - 4);
  }

  /** Changing any one byte of a stored journal makes it fail to decode. */
  lemma JournalDetectsChange(j: Journal, i: nat, b: byte)
    requires j.Encodable()
    requires i < |JournalBytes(j)| && b != JournalBytes(j)[i]
    ensures JournalFrom(JournalBytes(j)[i := b]).None?
  {
    var e := JournalBytes(j);
    var t := e[i := b];
    var end := |e| - 4;
    JournalRoundTrip(j);
    if i < end {
      assert t[..end] == e[..end][i := b];
      assert t[end..] == e[end..];
      Crc32.ChecksumDetectsChange(e[..end], i, b);
    } else {
      assert t[..end] == e[..end];
      assert t[end..] == e[end..][i - end := b];
      ReadDetectsChange(e[end..], i - end, b);
    }
  }

  // ----- code ----------------------------------------------------------------------------

  method AppendField(output: seq<byte>, value: seq<byte>) returns (appended: seq<byte>)
    ensures appended == output + FieldBytes(value)
  {
    appended := AppendLittleEndian(output, |value|, 2);
    appended := appended + value;
  }

  method Encode(journal: Journal) returns (output: seq<byte>)
    ensures output == JournalBytes(journal)
    ensures output == [] <==> !journal.Encodable()
  {
    if || journal.previousGeneration == 0 || |journal.token| > MAXIMUM_TOKEN_LENGTH
       || |journal.salt| > MAXIMUM_CREDENTIAL_PART_LENGTH
       || |journal.hash| > MAXIMUM_CREDENTIAL_PART_LENGTH {
      return [];
    }
    output := EncodeHeader(journal);
    output := AppendField(output, journal.token);
    output := AppendField(output, journal.salt);
    output := AppendField(output, journal.hash);
    assert output == JournalBody(journal);
    var crc := Crc32.Compute(output);
    output := AppendLittleEndian(output, crc, 4);
  }

  method EncodeHeader(journal: Journal) returns (output: seq<byte>)
    ensures output == JournalHeader(journal)
  {
    output := AppendLittleEndian([], JOURNAL_MAGIC, 4);
    output := AppendLittleEndian(output, JOURNAL_VERSION, 2);
    output := AppendLittleEndian(output, 0, 2);
    output := AppendLittleEndian(output, journal.previousGeneration, 8);
  }

  method TakeField(input: seq<byte>, cursor: nat, maximum: nat)
    returns (field: Option<(seq<byte>, nat)>)
    ensures field == FieldFrom(input, cursor, maximum)
  {
    var length := ReadLittleEndian(input, cursor, 2);
    if length.None? || length.value > maximum || cursor + 2 + length.value > |input| - 4 {
      return None;
    }
    var start := cursor + 2;
    field := Some((input[start..start + length.value], start + length.value));
  }

  method Decode(encoded: seq<byte>) returns (journal: Option<Journal>)
    ensures journal == JournalFrom(encoded)
  {
    if |encoded| < HEADER_SIZE {
      return None;
    }
    var end := |encoded| - 4;
    var magic := ReadLittleEndian(encoded, 0, 4);
    var version := ReadLittleEndian(encoded, 4, 2);
    var previous := ReadLittleEndian(encoded, 8, 8);
    var expected := ReadLittleEndian(encoded, end, 4);
    assert encoded[end..end + 4] == encoded[end..];
    var crc := Crc32.Compute(encoded[..end]);
    if || magic != Some(JOURNAL_MAGIC) || version != Some(JOURNAL_VERSION) || previous == Some(0)
       || expected != Some(crc) {
      return None;
    }
    var token := TakeField(encoded, 16, MAXIMUM_TOKEN_LENGTH);
    if token.None? {
      return None;
    }
    var salt := TakeField(encoded, token.value.1, MAXIMUM_CREDENTIAL_PART_LENGTH);
    if salt.None? {
      return None;
    }
    var hash := TakeField(encoded, salt.value.1, MAXIMUM_CREDENTIAL_PART_LENGTH);
    if hash.None? || hash.value.1 != end {
      return None;
    }
    Bounded(encoded[8..16]);
    Widths();
    journal := Some(Journal(previous.value, token.value.0, salt.value.0, hash.value.0));
  }
}
