/** Slot records and active markers: the byte formats of src/config/AtomicConfigStore.cpp. */
module RecordCodec {
  import opened Bytes
  import Crc32

  const RECORD_MAGIC: u32 := 0x504D4346
  const MARKER_MAGIC: u32 := 0x504D4143
  const FORMAT_VERSION: nat := 1
  const RECORD_HEADER_SIZE: nat := 24
  const MARKER_SIZE: nat := 20
  const MAXIMUM_PAYLOAD_SIZE: nat := 24 * 1024

  datatype Slot = A | B
  {
    function Other(): Slot { if A? then B else A }
    function Letter(): byte { if A? then 97 else 98 }
  }

  datatype Record = Record(generation: u64, payload: seq<byte>)
  {
    /** What decodeRecord can return. */
    predicate Legal() { generation != 0 && |payload| <= MAXIMUM_PAYLOAD_SIZE }
  }

  datatype Marker = Marker(slot: Slot, generation: u64)

  // ----- records -------------------------------------------------------------------------

  /** The bytes the record checksum covers; the length is truncated to 32 bits. */
  function RecordMaterial(r: Record): seq<byte>
  {
    LittleEndian(r.generation, 8) + LittleEndian(|r.payload|, 4) + r.payload
  }

  function RecordHeader(r: Record): (s: seq<byte>)
    ensures |s| == RECORD_HEADER_SIZE
  {
    LittleEndian(RECORD_MAGIC, 4) + LittleEndian(FORMAT_VERSION, 2) + LittleEndian(0, 2)
    + LittleEndian(r.generation, 8) + LittleEndian(|r.payload|, 4)
    + LittleEndian(Crc32.Checksum(RecordMaterial(r)), 4)
  }

  function RecordBytes(r: Record): seq<byte>
  {
    RecordHeader(r) + r.payload
  }

  function RecordFrom(e: seq<byte>): Option<Record>
  {
    if |e| < RECORD_HEADER_SIZE then None
    else
      var generation := FromLittleEndian(e[8..16]);
      var r := Record(Wide(e[8..16]), e[24..]);
      if || FromLittleEndian(e[0..4]) != RECORD_MAGIC
         || FromLittleEndian(e[4..6]) != FORMAT_VERSION
         || generation == 0
         || FromLittleEndian(e[16..20]) > MAXIMUM_PAYLOAD_SIZE
         || |e| != RECORD_HEADER_SIZE + FromLittleEndian(e[16..20])
         || Crc32.Checksum(RecordMaterial(r)) != FromLittleEndian(e[20..24])
      then None
      else Some(r)
  }

  lemma RecordFields(r: Record)
    ensures var e := RecordBytes(r);
            && e[0..4] == LittleEndian(RECORD_MAGIC, 4)
            && e[4..6] == LittleEndian(FORMAT_VERSION, 2)
            && e[8..16] == LittleEndian(r.generation, 8)
            && e[16..20] == LittleEndian(|r.payload|, 4)
            && e[20..24] == LittleEndian(Crc32.Checksum(RecordMaterial(r)), 4)
            && e[24..] == r.payload
  {
    var e := RecordBytes(r);
    assert e[0..4] == LittleEndian(RECORD_MAGIC, 4);
    assert e[4..6] == LittleEndian(FORMAT_VERSION, 2);
    assert e[8..16] == LittleEndian(r.generation, 8);
    assert e[16..20] == LittleEndian(|r.payload|, 4);
    assert e[20..24] == LittleEndian(Crc32.Checksum(RecordMaterial(r)), 4);
  }

  /** Every legal record reads back exactly. */
  lemma RecordRoundTrip(r: Record)
    requires r.Legal()
    ensures RecordFrom(RecordBytes(r)) == Some(r)
  {
    RecordFields(r);
    Widths();
    ReadBack(RECORD_MAGIC, 4);
    ReadBack(FORMAT_VERSION, 2);
    ReadBack(r.generation, 8);
    ReadBack(|r.payload|, 4);
    ReadBack(Crc32.Checksum(RecordMaterial(r)), 4);
  }

  lemma DecodedFields(e: seq<byte>)
    requires RecordFrom(e).Some?
    ensures var f := RecordBytes(RecordFrom(e).value);
            && |e| == |f| && e[0..4] == f[0..4] && e[4..6] == f[4..6] && e[8..16] == f[8..16]
            && e[16..20] == f[16..20] && e[20..24] == f[20..24] && e[24..] == f[24..]
  {
    RecordFields(RecordFrom(e).value);
    WriteBack(e[0..4]);
    WriteBack(e[4..6]);
    WriteBack(e[8..16]);
    WriteBack(e[16..20]);
    WriteBack(e[20..24]);
  }

  /** Whatever decodes is, outside the two reserved bytes, the encoding of what it decodes to. */
  lemma RecordCanonical(e: seq<byte>)
    requires RecordFrom(e).Some?
    ensures RecordFrom(e).value.Legal()
    ensures var f := RecordBytes(RecordFrom(e).value);
            |e| == |f| && e[..6] == f[..6] && e[8..] == f[8..]
  {
    var f := RecordBytes(RecordFrom(e).value);
    DecodedFields(e);
    forall i | 0 <= i < |e| && i != 6 && i != 7
      ensures e[i] == f[i]
    {
      SameAt(e, f, i, 0, 4);
      SameAt(e, f, i, 4, 6);
      SameAt(e, f, i, 8, 16);
      SameAt(e, f, i, 16, 20);
      SameAt(e, f, i, 20, 24);
      SameAt(e, f, i, 24, |e|);
    }
  }

  lemma SameAt(e: seq<byte>, f: seq<byte>, i: nat, lo: nat, hi: nat)
    requires |e| == |f| && lo <= hi <= |e| && e[lo..hi] == f[lo..hi]
    ensures lo <= i < hi ==> e[i] == f[i]
  {
    if lo <= i < hi {
      assert e[lo..hi][i - lo] == f[lo..hi][i - lo];
    }
  }

  lemma ChangeField(e: seq<byte>, i: nat, b: byte, lo: nat, hi: nat)
    requires lo <= hi <= |e| && i < |e|
    ensures lo <= i < hi ==> e[i := b][lo..hi] == e[lo..hi][i - lo := b]
    ensures !(lo <= i < hi) ==> e[i := b][lo..hi] == e[lo..hi]
  {
    if lo <= i < hi {
      assert e[i := b][lo..hi] == e[lo..hi][i - lo := b];
    } else {
      assert e[i := b][lo..hi] == e[lo..hi];
    }
  }

  /** The checksummed material read straight from the bytes of a record. */
  lemma MaterialInPlace(e: seq<byte>)
    requires |e| >= RECORD_HEADER_SIZE
    requires |e| == RECORD_HEADER_SIZE + FromLittleEndian(e[16..20])
    ensures RecordMaterial(Record(Wide(e[8..16]), e[24..])) == e[8..16] + e[16..20] + e[24..]
  {
    WriteBack(e[8..16]);
    WriteBack(e[16..20]);
  }

  /** A changed generation or payload byte changes the checksum of the material. */
  lemma MaterialDetectsChange(e: seq<byte>, i: nat, b: byte)
    requires |e| >= RECORD_HEADER_SIZE
    requires |e| == RECORD_HEADER_SIZE + FromLittleEndian(e[16..20])
    requires 8 <= i < 16 || 24 <= i < |e|
    requires b != e[i]
    ensures var t := e[i := b];
            Crc32.Checksum(RecordMaterial(Record(Wide(t[8..16]), t[24..])))
            != Crc32.Checksum(RecordMaterial(Record(Wide(e[8..16]), e[24..])))
  {
    var t := e[i := b];
    var material := e[8..16] + e[16..20] + e[24..];
    var k := if i < 24 then i - 8 else i - 12;
    assert t[16..20] == e[16..20];
    MaterialInPlace(e);
    MaterialInPlace(t);
    assert t[8..16] + t[16..20] + t[24..] == material[k := b];
    Crc32.ChecksumDetectsChange(material, k, b);
  }

  /** Changing any one byte of an encoded record, reserved bytes 6 and 7 apart, makes it fail. */
  lemma RecordDetectsChange(r: Record, i: nat, b: byte)
    requires r.Legal()
    requires i < |RecordBytes(r)| && i != 6 && i != 7
    requires b != RecordBytes(r)[i]
    ensures RecordFrom(RecordBytes(r)[i := b]).None?
  {
    var e := RecordBytes(r);
    var t := e[i := b];
    RecordRoundTrip(r);
    ChangeField(e, i, b, 0, 4);
    ChangeField(e, i, b, 4, 6);
    ChangeField(e, i, b, 8, 16);
    ChangeField(e, i, b, 16, 20);
    ChangeField(e, i, b, 20, 24);
    ChangeField(e, i, b, 24, |e|);
    if i < 4 {
      ReadDetectsChange(e[0..4], i, b);
    } else if i < 6 {
      ReadDetectsChange(e[4..6], i - 4, b);
    } else if 16 <= i < 20 {
      ReadDetectsChange(e[16..20], i - 16, b);
    } else if 20 <= i < 24 {
      ReadDetectsChange(e[20..24], i - 20, b);
    } else {
      MaterialDetectsChange(e, i, b);
    }
  }

  method EncodeRecord(generation: u64, payload: seq<byte>) returns (output: seq<byte>)
    ensures output == RecordBytes(Record(generation, payload))
  {
    hide LittleEndian;
    output := AppendLittleEndian([], RECORD_MAGIC, 4);
    output := AppendLittleEndian(output, FORMAT_VERSION, 2);
    output := AppendLittleEndian(output, 0, 2);
    output := AppendLittleEndian(output, generation, 8);
    output := AppendLittleEndian(output, |payload|, 4);
    var material := EncodeMaterial(generation, payload);
    var crc := Crc32.Compute(material);
    output := AppendLittleEndian(output, crc, 4);
    output := output + payload;
  }

  method EncodeMaterial(generation: u64, payload: seq<byte>) returns (material: seq<byte>)
    ensures material == RecordMaterial(Record(generation, payload))
  {
    material := AppendLittleEndian([], generation, 8);
    assert material == LittleEndian(generation, 8);
    material := AppendLittleEndian(material, |payload|, 4);
    material := material + payload;
  }

  method DecodeRecord(encoded: seq<byte>) returns (r: Option<Record>)
    ensures r == RecordFrom(encoded)
  {
    if |encoded| < RECORD_HEADER_SIZE {
      return None;
    }
    var magic := ReadLittleEndian(encoded, 0, 4);
    var version := ReadLittleEndian(encoded, 4, 2);
    var generation := ReadLittleEndian(encoded, 8, 8);
    var length := ReadLittleEndian(encoded, 16, 4);
    var crc := ReadLittleEndian(encoded, 20, 4);
    if || magic != Some(RECORD_MAGIC) || version != Some(FORMAT_VERSION) || generation == Some(0)
       || length.value > MAXIMUM_PAYLOAD_SIZE || |encoded| != RECORD_HEADER_SIZE + length.value {
      return None;
    }
    ghost var wide := Wide(encoded[8..16]);
    Bounded(encoded[8..16]);
    Widths();
    var payload := encoded[RECORD_HEADER_SIZE..];
    var material := EncodeMaterial(generation.value, payload);
    var computed := Crc32.Compute(material);
    return if Some(computed) == crc then Some(Record(generation.value, payload)) else None;
  }

  // ----- markers -------------------------------------------------------------------------

  function MarkerMaterial(letter: byte, generation: u64): seq<byte>
  {
    [letter] + LittleEndian(generation, 8)
  }

  function MarkerBytes(m: Marker): (s: seq<byte>)
    ensures |s| == MARKER_SIZE
  {
    LittleEndian(MARKER_MAGIC, 4) + LittleEndian(FORMAT_VERSION, 2) + [m.slot.Letter()] + [0]
    + LittleEndian(m.generation, 8)
    + LittleEndian(Crc32.Checksum(MarkerMaterial(m.slot.Letter(), m.generation)), 4)
  }

  function MarkerFrom(e: seq<byte>): Option<Marker>
  {
    if |e| != MARKER_SIZE then None
    else
      var generation := Wide(e[8..16]);
      if || FromLittleEndian(e[0..4]) != MARKER_MAGIC
         || FromLittleEndian(e[4..6]) != FORMAT_VERSION
         || generation == 0
         || (e[6] != A.Letter() && e[6] != B.Letter())
         || Crc32.Checksum(MarkerMaterial(e[6], generation)) != FromLittleEndian(e[16..20])
      then None
      else Some(Marker(if e[6] == A.Letter() then A else B, generation))
  }

  lemma MarkerFields(m: Marker)
    ensures var e := MarkerBytes(m);
            && e[0..4] == LittleEndian(MARKER_MAGIC, 4)
            && e[4..6] == LittleEndian(FORMAT_VERSION, 2)
            && e[6] == m.slot.Letter()
            && e[8..16] == LittleEndian(m.generation, 8)
            && e[16..20]
               == LittleEndian(Crc32.Checksum(MarkerMaterial(m.slot.Letter(), m.generation)), 4)
  {
    var e := MarkerBytes(m);
    assert e[0..4] == LittleEndian(MARKER_MAGIC, 4);
    assert e[4..6] == LittleEndian(FORMAT_VERSION, 2);
    assert e[8..16] == LittleEndian(m.generation, 8);
    assert e[16..20]
        == LittleEndian(Crc32.Checksum(MarkerMaterial(m.slot.Letter(), m.generation)), 4);
  }

  /** Every marker with a non-zero generation reads back exactly. */
  lemma MarkerRoundTrip(m: Marker)
    requires m.generation != 0
    ensures MarkerFrom(MarkerBytes(m)) == Some(m)
  {
    MarkerFields(m);
    Widths();
    ReadBack(MARKER_MAGIC, 4);
    ReadBack(FORMAT_VERSION, 2);
    ReadBack(m.generation, 8);
    ReadBack(Crc32.Checksum(MarkerMaterial(m.slot.Letter(), m.generation)), 4);
  }

  lemma MarkerMaterialDetectsChange(e: seq<byte>, i: nat, b: byte)
    requires |e| == MARKER_SIZE && (i == 6 || 8 <= i < 16) && b != e[i]
    ensures var t := e[i := b];
            Crc32.Checksum(MarkerMaterial(t[6], Wide(t[8..16]))) != Crc32.Checksum(MarkerMaterial(e[6], Wide(e[8..16])))
  {
    var t := e[i := b];
    var material := [e[6]] + e[8..16];
    var k := if i == 6 then 0 else i - 7;
    WriteBack(e[8..16]);
    WriteBack(t[8..16]);
    assert [t[6]] + t[8..16] == material[k := b];
    Crc32.ChecksumDetectsChange(material, k, b);
  }

  /** Changing any one byte of an encoded marker, reserved byte 7 apart, makes it fail. */
  lemma MarkerDetectsChange(m: Marker, i: nat, b: byte)
    requires m.generation != 0
    requires i < MARKER_SIZE && i != 7
    requires b != MarkerBytes(m)[i]
    ensures MarkerFrom(MarkerBytes(m)[i := b]).None?
  {
    var e := MarkerBytes(m);
    var t := e[i := b];
    MarkerRoundTrip(m);
    ChangeField(e, i, b, 0, 4);
    ChangeField(e, i, b, 4, 6);
    ChangeField(e, i, b, 8, 16);
    ChangeField(e, i, b, 16, 20);
    if i < 4 {
      ReadDetectsChange(e[0..4], i, b);
    } else if i < 6 {
      ReadDetectsChange(e[4..6], i - 4, b);
    } else if 16 <= i {
      ReadDetectsChange(e[16..20], i - 16, b);
    } else {
      MarkerMaterialDetectsChange(e, i, b);
    }
  }

  method EncodeMarker(slot: Slot, generation: u64) returns (output: seq<byte>)
    ensures output == MarkerBytes(Marker(slot, generation))
  {
    output := AppendLittleEndian([], MARKER_MAGIC, 4);
    assert output == LittleEndian(MARKER_MAGIC, 4);
    output := AppendLittleEndian(output, FORMAT_VERSION, 2);
    output := output + [slot.Letter()];
    output := output + [0];
    output := AppendLittleEndian(output, generation, 8);
    var material := EncodeMarkerMaterial(slot.Letter(), generation);
    var crc := Crc32.Compute(material);
    output := AppendLittleEndian(output, crc, 4);
  }

  method EncodeMarkerMaterial(letter: byte, generation: u64) returns (material: seq<byte>)
    ensures material == MarkerMaterial(letter, generation)
  {
    material := AppendLittleEndian([letter], generation, 8);
  }

  method DecodeMarker(encoded: seq<byte>) returns (m: Option<Marker>)
    ensures m == MarkerFrom(encoded)
  {
    if |encoded| != MARKER_SIZE {
      return None;
    }
    var magic := ReadLittleEndian(encoded, 0, 4);
    var version := ReadLittleEndian(encoded, 4, 2);
    var generation := ReadLittleEndian(encoded, 8, 8);
    var crc := ReadLittleEndian(encoded, 16, 4);
    if magic != Some(MARKER_MAGIC) || version != Some(FORMAT_VERSION) || generation == Some(0) {
      return None;
    }
    ghost var wide := Wide(encoded[8..16]);
    Bounded(encoded[8..16]);
    Widths();
    var letter := encoded[6];
    if letter != A.Letter() && letter != B.Letter() {
      return None;
    }
    var material := EncodeMarkerMaterial(letter, generation.value);
    var computed := Crc32.Compute(material);
    return if Some(computed) == crc
           then Some(Marker(if letter == A.Letter() then A else B, generation.value)) else None;
  }
}
