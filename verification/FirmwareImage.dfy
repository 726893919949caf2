/**
 * The application image layout, inspection and in-place patching of tools/firmware_image.py.
 * SHA-256 and the version pattern are parameters; files are byte sequences.
 */
module FirmwareImage {
  import opened Bytes
  import Crc32

  datatype Result<+T> = Ok(value: T) | Err(error: ImageError)

  datatype Field = VersionField | ProjectField | BuildTimeField | BuildDateField

  datatype ImageError =
    | ImageInvalid | SegmentCountInvalid | WrongTarget | Truncated | ExtraBytes | PaddingInvalid
    | ChecksumInvalid | AppendedSha256Invalid | NotApplicationImage | FieldInvalid(field: Field)
    | ProjectMismatch | VersionInvalid | VersionMismatch | BuildHashMismatch | MarkerMissing

  type Digest = s: seq<byte> | |s| == 32 witness seq(32, i => 0)

  const IMAGE_MAGIC: byte := 0xE9
  const CHIP_ID: nat := 9
  const DESCRIPTOR_MAGIC: nat := 0xABCD5432
  const CHECKSUM_MAGIC: byte := 0xEF
  const DESCRIPTOR_SIZE: nat := 256
  const PROJECT_NAME: seq<char> := "power-monitor-sensor"
  const PROTOCOL_MARKER: seq<byte> :=
    [0x70, 0x6D, 0x2D, 0x70, 0x72, 0x6F, 0x74, 0x6F, 0x63, 0x6F, 0x6C, 0x2F, 0x31, 0x2E, 0x30, 0x2E, 0x30]

  // ----- layout --------------------------------------------------------------------------------------

  /** A segment's data, as offsets into the image. */
  datatype Extent = Extent(start: nat, end: nat)

  datatype Layout = Layout(segments: seq<Extent>, checksumOffset: nat, imageLength: nat)

  function Word(data: seq<byte>, offset: nat, width: nat): nat
    requires offset + width <= |data|
  {
    FromLittleEndian(data[offset..offset + width])
  }

  /** The `count` segments whose headers start at `cursor`, or None when one is empty or runs past the end. */
  function Segments(data: seq<byte>, cursor: nat, count: nat): Option<seq<Extent>>
    decreases count
  {
    if count == 0 then Some([])
    else if cursor + 8 > |data| then None
    else
      var end := cursor + 8 + Word(data, cursor + 4, 4);
      if end == cursor + 8 || end > |data| then None
      else match Segments(data, end, count - 1)
           case None => None
           case Some(rest) => Some([Extent(cursor + 8, end)] + rest)
  }

  function EndOf(segments: seq<Extent>, cursor: nat): nat
  {
    if segments == [] then cursor else segments[|segments| - 1].end
  }

  function ChecksumOffset(end: nat): nat { end + (15 - end % 16) }

  function DigestLength(data: seq<byte>): nat
    requires |data| >= 24
  {
    if data[23] == 0 then 0 else 32
  }

  predicate Zeroes(s: seq<byte>)
  {
    forall i :: 0 <= i < |s| ==> s[i] == 0
  }

  function LayoutOf(data: seq<byte>): Result<Layout>
  {
    if |data| < 24 || data[0] != IMAGE_MAGIC then Err(ImageInvalid)
    else if data[1] == 0 || data[1] > 16 then Err(SegmentCountInvalid)
    else if Word(data, 12, 2) != CHIP_ID then Err(WrongTarget)
    else
      match Segments(data, 24, data[1])
      case None => Err(Truncated)
      case Some(segments) =>
        var end := EndOf(segments, 24);
        var length := ChecksumOffset(end) + 1;
        if data[23] > 1 then Err(ImageInvalid)
        else if |data| < length + DigestLength(data) then Err(Truncated)
        else if |data| != length + DigestLength(data) then Err(ExtraBytes)
        else if !Zeroes(data[end..ChecksumOffset(end)]) then Err(PaddingInvalid)
        else Ok(Layout(segments, ChecksumOffset(end), length))
  }

  /** Segments follow one another, each behind its own 8-byte header. */
  ghost predicate Chained(segments: seq<Extent>, cursor: nat, limit: nat)
  {
    && (forall i :: 0 <= i < |segments| ==> segments[i].start < segments[i].end <= limit)
    && (forall i :: 0 <= i < |segments| ==>
          segments[i].start == (if i == 0 then cursor else segments[i - 1].end) + 8)
  }

  lemma {:induction false} SegmentsAreChained(data: seq<byte>, cursor: nat, count: nat)
    requires Segments(data, cursor, count).Some?
    ensures var s := Segments(data, cursor, count).value;
            && |s| == count && Chained(s, cursor, |data|)
            && (count > 0 ==> s[0].end <= EndOf(s, cursor) <= |data|)
    decreases count
  {
    if count > 0 {
      var s := Segments(data, cursor, count).value;
      SegmentsAreChained(data, s[0].end, count - 1);
      assert s[1..] == Segments(data, s[0].end, count - 1).value;
      forall i | 0 <= i < |s|
        ensures s[i].start < s[i].end <= |data|
        ensures s[i].start == (if i == 0 then cursor else s[i - 1].end) + 8
      {
        if i > 0 {
          assert s[i] == s[1..][i - 1];
        }
        if i > 1 {
          assert s[i - 1] == s[1..][i - 2];
        }
      }
    }
  }

  /** The same headers mean the same segments. */
  lemma {:induction false} SameHeaders(d: seq<byte>, p: seq<byte>, cursor: nat, count: nat, end: nat)
    requires |d| == |p| && Segments(d, cursor, count).Some?
    requires end == EndOf(Segments(d, cursor, count).value, cursor)
    requires forall i :: cursor <= i < end && i < |d| ==> d[i] == p[i]
    ensures Segments(p, cursor, count) == Segments(d, cursor, count)
    decreases count, 1
  {
    if count > 0 {
      SegmentsAreChained(d, cursor, count);
      SameOuterHeaders(d, p, cursor, count, end);
    }
  }

  /** What lies inside the first segment does not matter to the segments. */
  lemma SameOuterHeaders(d: seq<byte>, p: seq<byte>, cursor: nat, count: nat, end: nat)
    requires |d| == |p| && count > 0 && Segments(d, cursor, count).Some?
    requires end == EndOf(Segments(d, cursor, count).value, cursor)
    requires cursor + 8 <= |d| && d[cursor..cursor + 8] == p[cursor..cursor + 8]
    requires forall i :: Segments(d, cursor, count).value[0].end <= i < end && i < |d| ==> d[i] == p[i]
    ensures Segments(p, cursor, count) == Segments(d, cursor, count)
    decreases count, 0
  {
    var s := Segments(d, cursor, count).value;
    SameWord(d, p, cursor);
    FirstSegment(d, cursor, count);
    hide Segments, Word, EndOf;
    SameHeaders(d, p, s[0].end, count - 1, end);
    SegmentsUnfold(p, cursor, count);
    assert s == [s[0]] + s[1..];
  }

  lemma FirstSegment(d: seq<byte>, cursor: nat, count: nat)
    requires count > 0 && Segments(d, cursor, count).Some?
    ensures var s := Segments(d, cursor, count).value;
            && s != [] && cursor + 8 <= |d|
            && s[0] == Extent(cursor + 8, cursor + 8 + Word(d, cursor + 4, 4)) && cursor + 8 < s[0].end <= |d|
            && Segments(d, s[0].end, count - 1) == Some(s[1..])
            && EndOf(s[1..], s[0].end) == EndOf(s, cursor)
  {
  }

  lemma SegmentsUnfold(p: seq<byte>, cursor: nat, count: nat)
    requires count > 0 && cursor + 8 <= |p|
    requires var end := cursor + 8 + Word(p, cursor + 4, 4);
             cursor + 8 < end <= |p| && Segments(p, end, count - 1).Some?
    ensures var end := cursor + 8 + Word(p, cursor + 4, 4);
            Segments(p, cursor, count) == Some([Extent(cursor + 8, end)] + Segments(p, end, count - 1).value)
  {
  }

  lemma SameWord(d: seq<byte>, p: seq<byte>, cursor: nat)
    requires |d| == |p| && cursor + 8 <= |d| && d[cursor..cursor + 8] == p[cursor..cursor + 8]
    ensures Word(p, cursor + 4, 4) == Word(d, cursor + 4, 4)
  {
    assert d[cursor + 4..cursor + 8] == d[cursor..cursor + 8][4..];
    assert p[cursor + 4..cursor + 8] == p[cursor..cursor + 8][4..];
  }

  /** The segment loop. */
  method ParseSegments(data: seq<byte>, count: nat) returns (r: Option<seq<Extent>>, cursor: nat)
    ensures r == Segments(data, 24, count)
    ensures r.Some? ==> cursor == EndOf(r.value, 24)
  {
    cursor := 24;
    var segments: seq<Extent> := [];
    ghost var all := Segments(data, 24, count);
    assert all.Some? ==> segments + all.value == all.value;
    for k := 0 to count
      invariant EndOf(segments, 24) == cursor
      invariant all == Joined(segments, Segments(data, cursor, count - k))
    {
      if cursor + 8 > |data| {
        return None, cursor;
      }
      var start := cursor + 8;
      var end := start + Word(data, cursor + 4, 4);
      if end == start || end > |data| {
        return None, cursor;
      }
      JoinedNext(segments, Extent(start, end), Segments(data, end, count - k - 1));
      segments := segments + [Extent(start, end)];
      cursor := end;
    }
    assert segments + [] == segments;
    r := Some(segments);
  }

  function Joined(segments: seq<Extent>, rest: Option<seq<Extent>>): Option<seq<Extent>>
  {
    match rest case None => None case Some(more) => Some(segments + more)
  }

  lemma JoinedNext(segments: seq<Extent>, e: Extent, rest: Option<seq<Extent>>)
    ensures Joined(segments, Joined([e], rest)) == Joined(segments + [e], rest)
  {
    if rest.Some? {
      assert segments + ([e] + rest.value) == segments + [e] + rest.value;
    }
  }

  method ParseLayout(data: seq<byte>) returns (r: Result<Layout>)
    ensures r == LayoutOf(data)
  {
    if |data| < 24 || data[0] != IMAGE_MAGIC {
      return Err(ImageInvalid);
    }
    var count: nat := data[1];
    if count == 0 || count > 16 {
      return Err(SegmentCountInvalid);
    }
    if Word(data, 12, 2) != CHIP_ID {
      return Err(WrongTarget);
    }
    var segments, cursor := ParseSegments(data, count);
    if segments.None? {
      return Err(Truncated);
    }
    SegmentsAreChained(data, 24, count);
    var checksumOffset := cursor + (15 - cursor % 16);
    var imageLength := checksumOffset + 1;
    if data[23] > 1 {
      return Err(ImageInvalid);
    }
    var expected := imageLength + (if data[23] == 0 then 0 else 32);
    if |data| < expected {
      return Err(Truncated);
    }
    if |data| != expected {
      return Err(ExtraBytes);
    }
    if exists i :: cursor <= i < checksumOffset && data[i] != 0 {
      return Err(PaddingInvalid);
    }
    r := Ok(Layout(segments.value, checksumOffset, imageLength));
  }

  // ----- checksum ------------------------------------------------------------------------------------

  function XorByte(a: byte, b: byte): (r: byte)
  {
    Crc32.Pow2Values();
    Crc32.XorBounded(a, b, 8);
    Crc32.Xor(a, b)
  }

  function XorAll(value: byte, s: seq<byte>): byte
  {
    if s == [] then value else XorByte(XorAll(value, s[..|s| - 1]), s[|s| - 1])
  }

  lemma XorAppend(value: byte, s: seq<byte>, b: byte)
    ensures XorAll(value, s + [b]) == XorByte(XorAll(value, s), b)
  {
    assert (s + [b])[..|s|] == s;
  }

  /** The bytes of the segments, in order. */
  function Payload(data: seq<byte>, segments: seq<Extent>): seq<byte>
    requires forall i :: 0 <= i < |segments| ==> segments[i].start <= segments[i].end <= |data|
  {
    if segments == [] then []
    else
      var last := segments[|segments| - 1];
      Payload(data, segments[..|segments| - 1]) + data[last.start..last.end]
  }

  method Checksum(data: seq<byte>, segments: seq<Extent>) returns (value: byte)
    requires forall i :: 0 <= i < |segments| ==> segments[i].start <= segments[i].end <= |data|
    ensures value == XorAll(CHECKSUM_MAGIC, Payload(data, segments))
  {
    value := CHECKSUM_MAGIC;
    for k := 0 to |segments|
      invariant value == XorAll(CHECKSUM_MAGIC, Payload(data, segments[..k]))
    {
      var e := segments[k];
      XorConcat(CHECKSUM_MAGIC, Payload(data, segments[..k]), data[e.start..e.end]);
      value := XorBytes(value, data[e.start..e.end]);
      assert segments[..k + 1][..k] == segments[..k];
    }
    assert segments[..|segments|] == segments;
  }

  method XorBytes(start: byte, s: seq<byte>) returns (value: byte)
    ensures value == XorAll(start, s)
  {
    value := start;
    for i := 0 to |s|
      invariant value == XorAll(start, s[..i])
    {
      assert s[..i + 1] == s[..i] + [s[i]];
      XorAppend(start, s[..i], s[i]);
      value := XorByte(value, s[i]);
    }
    assert s[..|s|] == s;
  }

  lemma {:induction false} XorConcat(value: byte, a: seq<byte>, b: seq<byte>)
    ensures XorAll(value, a + b) == XorAll(XorAll(value, a), b)
  {
    if b == [] {
      assert a + b == a;
    } else {
      var last := |b| - 1;
      assert a + b == (a + b[..last]) + [b[last]];
      XorAppend(value, a + b[..last], b[last]);
      XorConcat(value, a, b[..last]);
    }
  }

  /** Changing one byte always changes the checksum. */
  lemma {:induction false} ChecksumDetectsChange(value: byte, s: seq<byte>, i: nat, b: byte)
    requires i < |s| && b != s[i]
    ensures XorAll(value, s[i := b]) != XorAll(value, s)
  {
    var last := |s| - 1;
    var t := s[i := b];
    if i == last {
      assert t[..last] == s[..last];
      Crc32.XorCommutes(XorAll(value, s[..last]), b);
      Crc32.XorCommutes(XorAll(value, s[..last]), s[last]);
      Crc32.XorCancels(b, XorAll(value, s[..last]));
      Crc32.XorCancels(s[last], XorAll(value, s[..last]));
    } else {
      assert t[..last] == s[..last][i := b];
      ChecksumDetectsChange(value, s[..last], i, b);
      Crc32.XorCancels(XorAll(value, t[..last]), s[last]);
      Crc32.XorCancels(XorAll(value, s[..last]), s[last]);
    }
  }

  lemma {:induction false} SamePayload(d: seq<byte>, p: seq<byte>, segments: seq<Extent>)
    requires |d| == |p|
    requires forall i :: 0 <= i < |segments| ==> segments[i].start <= segments[i].end <= |d|
    requires forall i, k :: 0 <= i < |segments| && segments[i].start <= k < segments[i].end ==> d[k] == p[k]
    ensures Payload(p, segments) == Payload(d, segments)
  {
    if segments != [] {
      var last := segments[|segments| - 1];
      SamePayload(d, p, segments[..|segments| - 1]);
      assert d[last.start..last.end] == p[last.start..last.end];
    }
  }

  // ----- text fields ---------------------------------------------------------------------------------

  predicate Ascii(text: seq<char>)
  {
    forall i :: 0 <= i < |text| ==> text[i] as int < 128
  }

  /** Text that a field of this size can hold: ASCII, not empty, without NUL, and with room for one. */
  predicate Encodable(text: seq<char>, size: nat)
  {
    && Ascii(text) && 0 < |text| < size
    && forall i :: 0 <= i < |text| ==> text[i] != '\0'
  }

  function Encoded(text: seq<char>): seq<byte>
    requires Ascii(text)
  {
    seq(|text|, i requires 0 <= i < |text| => text[i] as int)
  }

  function EncodeField(text: seq<char>, size: nat, field: Field): Result<seq<byte>>
  {
    if !Ascii(text) then Err(FieldInvalid(field))
    else
      var encoded := Encoded(text);
      if encoded == [] || |encoded| >= size || 0 in encoded then Err(FieldInvalid(field))
      else Ok(encoded + seq(size - |encoded|, i => 0))
  }

  function UpToNul(s: seq<byte>): (r: seq<byte>)
    ensures |r| <= |s| && r == s[..|r|]
    ensures 0 !in r && (|r| < |s| ==> s[|r|] == 0)
  {
    if s == [] || s[0] == 0 then [] else [s[0]] + UpToNul(s[1..])
  }

  function DecodeField(data: seq<byte>, start: nat, size: nat, field: Field): Result<seq<char>>
  {
    if start + size > |data| || 0 !in data[start..start + size] then Err(FieldInvalid(field))
    else
      var value := UpToNul(data[start..start + size]);
      if (exists i :: 0 <= i < |value| && value[i] >= 128) || value == [] then Err(FieldInvalid(field))
      else Ok(seq(|value|, i requires 0 <= i < |value| => value[i] as char))
  }

  /** A field is encoded exactly when the text fits it, and reads back as the text. */
  lemma FieldRoundTrip(text: seq<char>, size: nat, field: Field, data: seq<byte>, start: nat)
    ensures EncodeField(text, size, field).Ok? <==> Encodable(text, size)
    ensures EncodeField(text, size, field).Ok? && start + size <= |data|
            && data[start..start + size] == EncodeField(text, size, field).value ==>
              DecodeField(data, start, size, field) == Ok(text)
  {
    if Ascii(text) {
      assert forall i :: 0 <= i < |text| ==> Encoded(text)[i] == text[i] as int;
      assert forall i :: 0 <= i < |text| ==> (Encoded(text)[i] == 0 <==> text[i] == '\0');
      if Encodable(text, size) && start + size <= |data| && data[start..start + size] == EncodeField(text, size, field).value {
        DecodesBack(text, size, field, data, start);
      }
    }
  }

  lemma DecodesBack(text: seq<char>, size: nat, field: Field, data: seq<byte>, start: nat)
    requires Encodable(text, size) && 0 !in Encoded(text) && start + size <= |data|
    requires data[start..start + size] == Encoded(text) + seq(size - |text|, i => 0)
    ensures DecodeField(data, start, size, field) == Ok(text)
  {
    var s := data[start..start + size];
    assert s[|text|] == 0 && s[..|text|] == Encoded(text);
    NulEnds(s, |text|);
    assert seq(|text|, i requires 0 <= i < |text| => Encoded(text)[i] as char) == text;
  }

  lemma {:induction false} NulEnds(s: seq<byte>, n: nat)
    requires n < |s| && s[n] == 0 && 0 !in s[..n]
    ensures UpToNul(s) == s[..n]
  {
    if n > 0 {
      assert s[..n][0] == s[0];
      assert s[1..][..n - 1] == s[..n][1..];
      NulEnds(s[1..], n - 1);
    }
  }

  // ----- inspection ----------------------------------------------------------------------------------

  datatype Metadata = Metadata(version: seq<char>, project: seq<char>, buildTime: seq<char>, buildDate: seq<char>,
                               buildHash: seq<byte>, size: nat, sha256: Digest, checksumOffset: nat)

  ghost predicate Contains(data: seq<byte>, pattern: seq<byte>)
  {
    exists i :: Occurs(data, pattern, i)
  }

  predicate Occurs(data: seq<byte>, pattern: seq<byte>, i: int)
  {
    0 <= i <= |data| - |pattern| && data[i..i + |pattern|] == pattern
  }

  /** The first segment is large enough for the application descriptor and starts with its magic number. */
  predicate HasDescriptor(data: seq<byte>, layout: Layout)
    requires layout.segments != [] && layout.segments[0].end <= |data|
  {
    var first := layout.segments[0];
    first.end - first.start >= DESCRIPTOR_SIZE && Word(data, first.start, 4) == DESCRIPTOR_MAGIC
  }

  /** What the patched parts of an accepted image read as. */
  ghost predicate Reads(data: seq<byte>, at: nat, version: seq<char>, project: seq<char>, buildTime: seq<char>,
                        buildDate: seq<char>, buildHash: seq<byte>)
  {
    && DecodeField(data, at + 16, 32, VersionField) == Ok(version)
    && DecodeField(data, at + 48, 32, ProjectField) == Ok(project)
    && DecodeField(data, at + 80, 16, BuildTimeField) == Ok(buildTime)
    && DecodeField(data, at + 96, 16, BuildDateField) == Ok(buildDate)
    && at + 176 <= |data| && data[at + 144..at + 176] == buildHash
  }

  /** The image's checksum byte and, if it says it has one, its trailing digest are right. */
  ghost predicate Sealed(data: seq<byte>, layout: Layout, sha256: seq<byte> -> Digest)
    requires LayoutOf(data) == Ok(layout)
  {
    LayoutFacts(data);
    && data[layout.checksumOffset] == XorAll(CHECKSUM_MAGIC, Payload(data, layout.segments))
    && (data[23] == 1 ==> sha256(data[..layout.imageLength]) == data[layout.imageLength..])
  }

  lemma LayoutFacts(data: seq<byte>)
    requires LayoutOf(data).Ok?
    ensures var l := LayoutOf(data).value;
            && |data| >= 24 && data[23] <= 1 && 1 <= |l.segments|
            && Chained(l.segments, 24, |data|)
            && EndOf(l.segments, 24) <= l.checksumOffset < l.imageLength <= |data|
            && l.segments[0].start == 32 && l.segments[0].end <= EndOf(l.segments, 24)
            && l.imageLength == l.checksumOffset + 1
            && |data| == l.imageLength + (if data[23] == 1 then 32 else 0)
  {
    SegmentsAreChained(data, 24, data[1]);
  }

  lemma {:induction false} ChainedEnds(segments: seq<Extent>, cursor: nat, limit: nat, i: nat)
    requires Chained(segments, cursor, limit) && i < |segments|
    ensures segments[i].end <= EndOf(segments, cursor)
    decreases |segments| - i
  {
    if i < |segments| - 1 {
      ChainedEnds(segments, cursor, limit, i + 1);
      assert segments[i + 1].start == segments[i].end + 8;
    }
  }

  lemma BeforeChecksum(d: seq<byte>)
    requires LayoutOf(d).Ok?
    ensures var l := LayoutOf(d).value;
            forall i :: 0 <= i < |l.segments| ==> l.segments[i].start <= l.segments[i].end <= l.checksumOffset
  {
    LayoutFacts(d);
    var l := LayoutOf(d).value;
    forall i: nat | i < |l.segments|
      ensures l.segments[i].start <= l.segments[i].end <= l.checksumOffset
    {
      ChainedEnds(l.segments, 24, |d|, i);
    }
  }

  function LayoutFound(data: seq<byte>): (l: Layout)
    requires LayoutOf(data).Ok?
    ensures l == LayoutOf(data).value && l.segments != [] && l.segments[0].end <= |data|
    ensures forall i :: 0 <= i < |l.segments| ==> l.segments[i].start <= l.segments[i].end <= l.checksumOffset
    ensures l.checksumOffset < l.imageLength <= |data|
  {
    LayoutFacts(data);
    BeforeChecksum(data);
    LayoutOf(data).value
  }

  /**
   * What inspection answers: the contents of an acceptable image; else an error, where layout errors come first, then
   * the seals, then the descriptor, and a missing marker last.
   */
  ghost predicate InspectedAs(data: seq<byte>, expectedVersion: Option<seq<char>>, expectedHash: Option<seq<byte>>,
                              sha256: seq<byte> -> Digest, semver: seq<char> -> bool, r: Result<Metadata>)
  {
    && (r.Ok? ==>
          && LayoutOf(data).Ok? && Sealed(data, LayoutOf(data).value, sha256)
          && HasDescriptor(data, LayoutFound(data)) && Contains(data, PROTOCOL_MARKER)
          && Reads(data, LayoutFound(data).segments[0].start, r.value.version, r.value.project, r.value.buildTime,
                   r.value.buildDate, r.value.buildHash)
          && r.value.project == PROJECT_NAME && semver(r.value.version)
          && (expectedVersion.Some? ==> r.value.version == expectedVersion.value)
          && (expectedHash.Some? ==> r.value.buildHash == expectedHash.value)
          && r.value.size == |data| && r.value.sha256 == sha256(data)
          && r.value.checksumOffset == LayoutFound(data).checksumOffset)
    && (r.Err? ==> !Acceptable(data, expectedVersion, expectedHash, sha256, semver))
    && (LayoutOf(data).Err? ==> r == Err(LayoutOf(data).error))
    && (r in {Err(ChecksumInvalid), Err(AppendedSha256Invalid)} <==>
          LayoutOf(data).Ok? && !Sealed(data, LayoutOf(data).value, sha256))
    && (r == Err(NotApplicationImage) <==>
          && LayoutOf(data).Ok? && Sealed(data, LayoutOf(data).value, sha256)
          && !HasDescriptor(data, LayoutFound(data)))
    && (r == Err(MarkerMissing) ==> !Contains(data, PROTOCOL_MARKER))
  }

  /** Inspection: succeeds exactly on sealed application images of this project with the expected contents. */
  method Inspect(data: seq<byte>, expectedVersion: Option<seq<char>>, expectedHash: Option<seq<byte>>,
                 sha256: seq<byte> -> Digest, semver: seq<char> -> bool) returns (r: Result<Metadata>)
    ensures InspectedAs(data, expectedVersion, expectedHash, sha256, semver, r)
  {
    var parsed := ParseLayout(data);
    if parsed.Err? {
      return Err(parsed.error);
    }
    var layout := parsed.value;
    LayoutFacts(data);
    var checksum := Checksum(data, layout.segments);
    if data[layout.checksumOffset] != checksum {
      return Err(ChecksumInvalid);
    }
    if data[23] == 1 && sha256(data[..layout.imageLength]) != data[layout.imageLength..] {
      return Err(AppendedSha256Invalid);
    }
    var at := layout.segments[0].start;
    if !HasDescriptor(data, layout) {
      return Err(NotApplicationImage);
    }
    r := InspectDescriptor(data, at, layout.checksumOffset, expectedVersion, expectedHash, sha256, semver);
  }

  method InspectDescriptor(data: seq<byte>, at: nat, checksumOffset: nat, expectedVersion: Option<seq<char>>,
                           expectedHash: Option<seq<byte>>, sha256: seq<byte> -> Digest, semver: seq<char> -> bool)
    returns (r: Result<Metadata>)
    requires at + DESCRIPTOR_SIZE <= |data|
    ensures r.Ok? ==>
              && Contains(data, PROTOCOL_MARKER)
              && Reads(data, at, r.value.version, r.value.project, r.value.buildTime, r.value.buildDate,
                       r.value.buildHash)
              && r.value.project == PROJECT_NAME && semver(r.value.version)
              && (expectedVersion.Some? ==> r.value.version == expectedVersion.value)
              && (expectedHash.Some? ==> r.value.buildHash == expectedHash.value)
              && r.value.size == |data| && r.value.sha256 == sha256(data) && r.value.checksumOffset == checksumOffset
    ensures r.Err? ==> !DescriptorAcceptable(data, at, expectedVersion, expectedHash, semver)
    ensures r.Err? ==>
              r.error.FieldInvalid? || r.error in {ProjectMismatch, VersionInvalid, VersionMismatch, BuildHashMismatch, MarkerMissing}
    ensures r == Err(MarkerMissing) ==> !Contains(data, PROTOCOL_MARKER)
  {
    var version := DecodeField(data, at + 16, 32, VersionField);
    if version.Err? {
      return Err(version.error);
    }
    var project := DecodeField(data, at + 48, 32, ProjectField);
    if project.Err? {
      return Err(project.error);
    }
    var buildTime := DecodeField(data, at + 80, 16, BuildTimeField);
    if buildTime.Err? {
      return Err(buildTime.error);
    }
    var buildDate := DecodeField(data, at + 96, 16, BuildDateField);
    if buildDate.Err? {
      return Err(buildDate.error);
    }
    var buildHash := data[at + 144..at + 176];
    if project.value != PROJECT_NAME {
      return Err(ProjectMismatch);
    }
    if !semver(version.value) {
      return Err(VersionInvalid);
    }
    if expectedVersion.Some? && version.value != expectedVersion.value {
      return Err(VersionMismatch);
    }
    if expectedHash.Some? && buildHash != expectedHash.value {
      return Err(BuildHashMismatch);
    }
    var found := exists i :: 0 <= i <= |data| && Occurs(data, PROTOCOL_MARKER, i);
    if !found {
      return Err(MarkerMissing);
    }
    r := Ok(Metadata(version.value, project.value, buildTime.value, buildDate.value, buildHash, |data|, sha256(data),
                     checksumOffset));
  }

  /** Everything inspection asks of the descriptor, independently of the order it asks in. */
  ghost predicate DescriptorAcceptable(data: seq<byte>, at: nat, expectedVersion: Option<seq<char>>,
                                       expectedHash: Option<seq<byte>>, semver: seq<char> -> bool)
  {
    && Contains(data, PROTOCOL_MARKER)
    && exists version, buildTime, buildDate, buildHash ::
         && Reads(data, at, version, PROJECT_NAME, buildTime, buildDate, buildHash)
         && semver(version)
         && (expectedVersion.Some? ==> version == expectedVersion.value)
         && (expectedHash.Some? ==> buildHash == expectedHash.value)
  }

  ghost predicate Acceptable(data: seq<byte>, expectedVersion: Option<seq<char>>, expectedHash: Option<seq<byte>>,
                             sha256: seq<byte> -> Digest, semver: seq<char> -> bool)
  {
    && LayoutOf(data).Ok?
    && var layout := LayoutOf(data).value;
       LayoutFacts(data);
       && Sealed(data, layout, sha256) && HasDescriptor(data, layout)
       && DescriptorAcceptable(data, layout.segments[0].start, expectedVersion, expectedHash, semver)
  }

  // ----- patching ------------------------------------------------------------------------------------

  function Splice(data: seq<byte>, at: nat, bytes: seq<byte>): (r: seq<byte>)
    requires at + |bytes| <= |data|
    ensures |r| == |data| && r[at..at + |bytes|] == bytes
    ensures forall i :: 0 <= i < |data| && !(at <= i < at + |bytes|) ==> r[i] == data[i]
  {
    data[..at] + bytes + data[at + |bytes|..]
  }

  method Overwrite(data: array<byte>, at: nat, bytes: seq<byte>)
    requires at + |bytes| <= data.Length
    modifies data
    ensures data[..] == Splice(old(data[..]), at, bytes)
  {
    forall i | 0 <= i < |bytes| {
      data[at + i] := bytes[i];
    }
  }

  /** The texts and the digest written into the descriptor. */
  datatype Fields = Fields(version: seq<byte>, project: seq<byte>, buildTime: seq<byte>, buildDate: seq<byte>,
                           elfHash: Digest)

  predicate Fitting(f: Fields)
  {
    |f.version| == 32 && |f.project| == 32 && |f.buildTime| == 16 && |f.buildDate| == 16
  }

  /** The positions in the descriptor that a patch writes. */
  predicate InFields(at: nat, i: int)
  {
    at + 16 <= i < at + 112 || at + 144 <= i < at + 176
  }

  function Described(data: seq<byte>, at: nat, f: Fields): seq<byte>
    requires at + DESCRIPTOR_SIZE <= |data| && Fitting(f)
  {
    Splice(Splice(Splice(Splice(Splice(data, at + 16, f.version), at + 48, f.project), at + 80, f.buildTime),
                  at + 96, f.buildDate), at + 144, f.elfHash)
  }

  lemma DescribedFields(data: seq<byte>, at: nat, f: Fields)
    requires at + DESCRIPTOR_SIZE <= |data| && Fitting(f)
    ensures var p := Described(data, at, f);
            && |p| == |data|
            && HoldsFields(p, at, f)
            && forall i :: 0 <= i < |data| && !InFields(at, i) ==> p[i] == data[i]
  {
    var a := Splice(data, at + 16, f.version);
    var b := Splice(a, at + 48, f.project);
    var c := Splice(b, at + 80, f.buildTime);
    var d := Splice(c, at + 96, f.buildDate);
    var e := Splice(d, at + 144, f.elfHash);
    Untouched(a, b, at + 16, at + 48);
    Untouched(b, c, at + 16, at + 48);
    Untouched(c, d, at + 16, at + 48);
    Untouched(d, e, at + 16, at + 48);
    Untouched(b, c, at + 48, at + 80);
    Untouched(c, d, at + 48, at + 80);
    Untouched(d, e, at + 48, at + 80);
    Untouched(c, d, at + 80, at + 96);
    Untouched(d, e, at + 80, at + 96);
    Untouched(d, e, at + 96, at + 112);
  }

  lemma Untouched(before: seq<byte>, after: seq<byte>, from: nat, to: nat)
    requires from <= to <= |before| == |after|
    requires forall i :: from <= i < to ==> after[i] == before[i]
    ensures after[from..to] == before[from..to]
  {
  }

  predicate HoldsFields(data: seq<byte>, at: nat, f: Fields)
    requires at + DESCRIPTOR_SIZE <= |data|
  {
    && data[at + 16..at + 48] == f.version && data[at + 48..at + 80] == f.project
    && data[at + 80..at + 96] == f.buildTime && data[at + 96..at + 112] == f.buildDate
    && data[at + 144..at + 176] == f.elfHash
  }

  /** The positions a patch may change: descriptor fields, the checksum byte and the trailing digest. */
  predicate Patchable(layout: Layout, at: nat, i: int)
  {
    InFields(at, i) || i == layout.checksumOffset || i >= layout.imageLength
  }

  /** What a patch leaves: the fields written, the image sealed again, and nothing else changed. */
  ghost predicate Patched(d: seq<byte>, p: seq<byte>, f: Fields, sha256: seq<byte> -> Digest)
    requires LayoutOf(d).Ok?
  {
    var layout := LayoutOf(d).value;
    LayoutFacts(d);
    var at := layout.segments[0].start;
    && |p| == |d| && at + DESCRIPTOR_SIZE <= |p|
    && HoldsFields(p, at, f)
    && (forall i :: 0 <= i < |d| && !Patchable(layout, at, i) ==> p[i] == d[i])
    && p[layout.checksumOffset] == XorAll(CHECKSUM_MAGIC, Payload(p, layout.segments))
    && (if d[23] == 1 then p[layout.imageLength..] == sha256(p[..layout.imageLength]) else true)
  }

  /** Patching changes no header, so the layout stays: same segments, same checksum position, same length. */
  lemma PatchKeepsLayout(d: seq<byte>, p: seq<byte>, f: Fields, sha256: seq<byte> -> Digest)
    requires LayoutOf(d).Ok? && HasDescriptor(d, LayoutFound(d)) && Patched(d, p, f, sha256)
    ensures LayoutOf(p) == LayoutOf(d)
  {
    LayoutFacts(d);
    SameFrameSameLayout(d, p);
  }

  /** The images agree up to the first descriptor field, and from the end of the first segment to the checksum. */
  ghost predicate SameFrame(d: seq<byte>, p: seq<byte>)
    requires LayoutOf(d).Ok?
  {
    && |p| == |d|
    && forall i :: 0 <= i < |d| && (i < 48 || LayoutFound(d).segments[0].end <= i < LayoutFound(d).checksumOffset) ==>
         d[i] == p[i]
  }

  lemma SameFrameSameLayout(d: seq<byte>, p: seq<byte>)
    requires LayoutOf(d).Ok? && SameFrame(d, p)
    ensures LayoutOf(p) == LayoutOf(d)
  {
    LayoutFacts(d);
    SegmentsUnchanged(d, p);
    assert p[0] == d[0] && p[1] == d[1] && p[23] == d[23];
    Untouched(d, p, 12, 14);
    Untouched(d, p, EndOf(LayoutFound(d).segments, 24), LayoutFound(d).checksumOffset);
  }

  lemma SegmentsUnchanged(d: seq<byte>, p: seq<byte>)
    requires LayoutOf(d).Ok? && SameFrame(d, p)
    ensures Segments(p, 24, d[1]) == Segments(d, 24, d[1])
  {
    LayoutFacts(d);
    Untouched(d, p, 24, 32);
    SameOuterHeaders(d, p, 24, d[1], EndOf(LayoutFound(d).segments, 24));
  }

  /** The protocol marker lies clear of everything a patch writes. */
  ghost predicate MarkerApart(d: seq<byte>)
    requires LayoutOf(d).Ok?
  {
    exists m: nat :: MarkerApartAt(d, m)
  }

  ghost predicate MarkerApartAt(d: seq<byte>, m: nat)
    requires LayoutOf(d).Ok?
  {
    && Occurs(d, PROTOCOL_MARKER, m)
    && forall i :: m <= i < m + |PROTOCOL_MARKER| ==> !Patchable(LayoutFound(d), LayoutFound(d).segments[0].start, i)
  }

  /** What a patch leaves at a position: a byte of a field, the checksum byte, a byte of the digest, or the image's own. */
  function Overlaid(d: seq<byte>, f: Fields, sum: byte, digest: seq<byte>, i: nat): byte
    requires LayoutOf(d).Ok? && Fitting(f) && i < |d|
    requires |digest| == |d| - LayoutFound(d).imageLength
  {
    var layout := LayoutFound(d);
    var at := layout.segments[0].start;
    if at + 16 <= i < at + 48 then f.version[i - (at + 16)]
    else if at + 48 <= i < at + 80 then f.project[i - (at + 48)]
    else if at + 80 <= i < at + 96 then f.buildTime[i - (at + 80)]
    else if at + 96 <= i < at + 112 then f.buildDate[i - (at + 96)]
    else if at + 144 <= i < at + 176 then f.elfHash[i - (at + 144)]
    else if i == layout.checksumOffset then sum
    else if i >= layout.imageLength then digest[i - layout.imageLength]
    else d[i]
  }

  /** The bytes written complete a marker together with those around them. */
  ghost predicate MarkerArisesAt(d: seq<byte>, f: Fields, sum: byte, digest: seq<byte>, m: nat)
    requires LayoutOf(d).Ok? && Fitting(f) && |digest| == |d| - LayoutFound(d).imageLength
  {
    && m + |PROTOCOL_MARKER| <= |d|
    && (exists i: nat :: m <= i < m + |PROTOCOL_MARKER| && Patchable(LayoutFound(d), LayoutFound(d).segments[0].start, i))
    && forall i: nat :: m <= i < m + |PROTOCOL_MARKER| ==> Overlaid(d, f, sum, digest, i) == PROTOCOL_MARKER[i - m]
  }

  ghost predicate MarkerArises(d: seq<byte>, f: Fields, sum: byte, digest: seq<byte>)
    requires LayoutOf(d).Ok? && Fitting(f) && |digest| == |d| - LayoutFound(d).imageLength
  {
    exists m: nat :: MarkerArisesAt(d, f, sum, digest, m)
  }

  /** The marker is in the patched image if and only if the patch left one alone or its bytes complete one. */
  lemma MarkerSurvivesOrArises(d: seq<byte>, p: seq<byte>, f: Fields, sha256: seq<byte> -> Digest)
    requires LayoutOf(d).Ok? && HasDescriptor(d, LayoutFound(d)) && Patched(d, p, f, sha256)
    ensures Fitting(f) && LayoutFound(d).checksumOffset < LayoutFound(d).imageLength <= |p| == |d|
    ensures var l := LayoutFound(d);
            Contains(p, PROTOCOL_MARKER) <==>
              MarkerApart(d) || MarkerArises(d, f, p[l.checksumOffset], p[l.imageLength..])
  {
    LayoutFacts(d);
    MarkerStays(d, p, f, sha256);
    var l := LayoutFound(d);
    var sum, digest := p[l.checksumOffset], p[l.imageLength..];
    PatchedIsOverlay(d, p, f, sum, digest, sha256);
    hide Patched, HasDescriptor, LayoutOf, Overlaid;
    if m: nat :| MarkerArisesAt(d, f, sum, digest, m) {
      forall k | 0 <= k < |PROTOCOL_MARKER|
        ensures p[m..m + |PROTOCOL_MARKER|][k] == PROTOCOL_MARKER[k]
      {
        assert Overlaid(d, f, sum, digest, m + k) == PROTOCOL_MARKER[m + k - m];
      }
      assert Occurs(p, PROTOCOL_MARKER, m);
    }
    if m: nat :| Occurs(p, PROTOCOL_MARKER, m) {
      OccursIsEither(d, p, f, sum, digest, m);
    }
  }

  lemma OccursIsEither(d: seq<byte>, p: seq<byte>, f: Fields, sum: byte, digest: seq<byte>, m: nat)
    requires LayoutOf(d).Ok? && Fitting(f) && |p| == |d| && |digest| == |d| - LayoutFound(d).imageLength
    requires forall i: nat :: i < |d| ==> p[i] == Overlaid(d, f, sum, digest, i)
    requires Occurs(p, PROTOCOL_MARKER, m)
    ensures MarkerApartAt(d, m) || MarkerArisesAt(d, f, sum, digest, m)
  {
    var l := LayoutFound(d);
    forall i: nat | m <= i < m + |PROTOCOL_MARKER|
      ensures Overlaid(d, f, sum, digest, i) == PROTOCOL_MARKER[i - m]
    {
      assert p[m..m + |PROTOCOL_MARKER|][i - m] == PROTOCOL_MARKER[i - m];
    }
    if forall i: nat :: m <= i < m + |PROTOCOL_MARKER| ==> !Patchable(l, l.segments[0].start, i) {
      forall k | 0 <= k < |PROTOCOL_MARKER|
        ensures d[m..m + |PROTOCOL_MARKER|][k] == PROTOCOL_MARKER[k]
      {
        assert !Patchable(l, l.segments[0].start, m + k);
        assert Overlaid(d, f, sum, digest, m + k) == PROTOCOL_MARKER[m + k - m];
      }
      assert Occurs(d, PROTOCOL_MARKER, m);
    }
  }

  lemma PatchedIsOverlay(d: seq<byte>, p: seq<byte>, f: Fields, sum: byte, digest: seq<byte>,
                         sha256: seq<byte> -> Digest)
    requires LayoutOf(d).Ok? && HasDescriptor(d, LayoutFound(d)) && Patched(d, p, f, sha256)
    requires LayoutFound(d).checksumOffset < LayoutFound(d).imageLength <= |d|
    requires sum == p[LayoutFound(d).checksumOffset] && digest == p[LayoutFound(d).imageLength..]
    ensures Fitting(f) && |digest| == |d| - LayoutFound(d).imageLength
    ensures forall i: nat :: i < |d| ==> p[i] == Overlaid(d, f, sum, digest, i)
  {
    var at := LayoutFound(d).segments[0].start;
    assert |p[at + 16..at + 48]| == 32 && |p[at + 48..at + 80]| == 32;
    assert |p[at + 80..at + 96]| == 16 && |p[at + 96..at + 112]| == 16;
    hide LayoutOf, HasDescriptor, Payload, XorAll;
  }

  /**
   * A marker can only arise from the version's text, the ELF hash, the checksum byte or the digest: the other texts are
   * too short or fixed, and the NUL behind each keeps them apart.
   */
  lemma ArisesBesideTexts(d: seq<byte>, f: Fields, sum: byte, digest: seq<byte>, m: nat, version: seq<char>,
                          buildTime: seq<char>, buildDate: seq<char>)
    requires LayoutOf(d).Ok? && Fitting(f) && |digest| == |d| - LayoutFound(d).imageLength
    requires FieldsEncode(f, version, buildTime, buildDate) && MarkerArisesAt(d, f, sum, digest, m)
    ensures var l := LayoutFound(d);
            var at := l.segments[0].start;
            || (at + 16 < m + |PROTOCOL_MARKER| && m < at + 47)
            || (at + 144 < m + |PROTOCOL_MARKER| && m < at + 176)
            || m <= l.checksumOffset < m + |PROTOCOL_MARKER|
            || l.imageLength < m + |PROTOCOL_MARKER|
  {
    var at := LayoutFound(d).segments[0].start;
    var i: nat :| m <= i < m + |PROTOCOL_MARKER| && Patchable(LayoutFound(d), at, i);
    hide LayoutOf, LayoutFound, FieldsEncode, Overlaid;
    if at + 47 <= m < at + 112 && m + |PROTOCOL_MARKER| <= LayoutFound(d).checksumOffset {
      var z := TextsBreakMarker(d, f, sum, digest, m, version, buildTime, buildDate);
    }
  }

  /** A marker that would start in the texts behind the version's differs from them somewhere. */
  lemma TextsBreakMarker(d: seq<byte>, f: Fields, sum: byte, digest: seq<byte>, m: nat, version: seq<char>,
                         buildTime: seq<char>, buildDate: seq<char>) returns (z: nat)
    requires LayoutOf(d).Ok? && Fitting(f) && |digest| == |d| - LayoutFound(d).imageLength
    requires FieldsEncode(f, version, buildTime, buildDate) && m + |PROTOCOL_MARKER| <= |d|
    requires var at := LayoutFound(d).segments[0].start; at + 47 <= m < at + 112
    ensures m <= z < m + |PROTOCOL_MARKER| && Overlaid(d, f, sum, digest, z) != PROTOCOL_MARKER[z - m]
  {
    NulBehind(f, version, buildTime, buildDate);
    var at := LayoutFound(d).segments[0].start;
    hide LayoutOf, LayoutFound, FieldsEncode;
    z := if m == at + 48 then m + 1 else if m <= at + 51 then m else if m <= at + 68 then at + 68
         else if m < at + 80 then m else if m < at + 96 then at + 95 else at + 111;
  }

  lemma NulBehind(f: Fields, version: seq<char>, buildTime: seq<char>, buildDate: seq<char>)
    requires FieldsEncode(f, version, buildTime, buildDate)
    ensures Fitting(f)
    ensures f.version[31] == 0 && f.buildTime[15] == 0 && f.buildDate[15] == 0
    ensures forall k :: 20 <= k < 32 ==> f.project[k] == 0
    ensures f.project[1] == 0x6F && f.project[2] == 0x77 && f.project[3] == 0x65
  {
  }

  /**
   * A patched image passes every inspection check for the version, project and hash just written if and only if
   * the protocol marker is still in it: the patch left one alone, or the bytes it wrote complete one.
   */
  lemma PatchedImagePassesIff(d: seq<byte>, p: seq<byte>, f: Fields, version: seq<char>, buildTime: seq<char>,
                              buildDate: seq<char>, sha256: seq<byte> -> Digest, semver: seq<char> -> bool)
    requires LayoutOf(d).Ok? && HasDescriptor(d, LayoutFound(d)) && Patched(d, p, f, sha256)
    requires FieldsEncode(f, version, buildTime, buildDate) && semver(version)
    ensures Acceptable(p, Some(version), Some(f.elfHash), sha256, semver) <==> Contains(p, PROTOCOL_MARKER)
    ensures MarkerApart(d) ==> Contains(p, PROTOCOL_MARKER)
    ensures Fitting(f) && LayoutFound(d).checksumOffset < LayoutFound(d).imageLength <= |p| == |d|
    ensures var l := LayoutFound(d);
            Acceptable(p, Some(version), Some(f.elfHash), sha256, semver) <==>
              MarkerApart(d) || MarkerArises(d, f, p[l.checksumOffset], p[l.imageLength..])
  {
    MarkerSurvivesOrArises(d, p, f, sha256);
    PatchKeepsLayout(d, p, f, sha256);
    PatchedReads(p, LayoutFound(d).segments[0].start, f, version, buildTime, buildDate);
    PatchedIsSealed(d, p, f, sha256);
    MarkerStays(d, p, f, sha256);
    hide Patched, HasDescriptor, Sealed, Reads, FieldsEncode, Contains, MarkerApart, MarkerArises, LayoutFound, LayoutOf;
    if Contains(p, PROTOCOL_MARKER) {
      assert DescriptorAcceptable(p, LayoutOf(p).value.segments[0].start, Some(version), Some(f.elfHash), semver);
    }
  }

  /** The fields hold these texts. */
  ghost predicate FieldsEncode(f: Fields, version: seq<char>, buildTime: seq<char>, buildDate: seq<char>)
  {
    && EncodeField(version, 32, VersionField) == Ok(f.version)
    && EncodeField(PROJECT_NAME, 32, ProjectField) == Ok(f.project)
    && EncodeField(buildTime, 16, BuildTimeField) == Ok(f.buildTime)
    && EncodeField(buildDate, 16, BuildDateField) == Ok(f.buildDate)
  }

  /** The patched fields read back as the texts given. */
  lemma PatchedReads(p: seq<byte>, at: nat, f: Fields, version: seq<char>, buildTime: seq<char>, buildDate: seq<char>)
    requires at + DESCRIPTOR_SIZE <= |p| && HoldsFields(p, at, f) && FieldsEncode(f, version, buildTime, buildDate)
    ensures Reads(p, at, version, PROJECT_NAME, buildTime, buildDate, f.elfHash)
  {
    hide EncodeField, DecodeField;
    ReadsBack(version, 32, VersionField, p, at + 16, f.version);
    ReadsBack(PROJECT_NAME, 32, ProjectField, p, at + 48, f.project);
    ReadsBack(buildTime, 16, BuildTimeField, p, at + 80, f.buildTime);
    ReadsBack(buildDate, 16, BuildDateField, p, at + 96, f.buildDate);
  }

  lemma ReadsBack(text: seq<char>, size: nat, field: Field, data: seq<byte>, start: nat, encoded: seq<byte>)
    requires EncodeField(text, size, field) == Ok(encoded)
    requires start + size <= |data| && data[start..start + size] == encoded
    ensures DecodeField(data, start, size, field) == Ok(text)
  {
    FieldRoundTrip(text, size, field, data, start);
  }

  lemma MarkerStays(d: seq<byte>, p: seq<byte>, f: Fields, sha256: seq<byte> -> Digest)
    requires LayoutOf(d).Ok? && Patched(d, p, f, sha256)
    ensures MarkerApart(d) ==> Contains(p, PROTOCOL_MARKER)
  {
    if m: nat :| MarkerApartAt(d, m) {
      forall i | m <= i < m + |PROTOCOL_MARKER|
        ensures p[i] == d[i]
      {
        assert !Patchable(LayoutFound(d), LayoutFound(d).segments[0].start, i);
      }
      Untouched(d, p, m, m + |PROTOCOL_MARKER|);
      assert Occurs(p, PROTOCOL_MARKER, m);
    }
  }

  lemma PatchedIsSealed(d: seq<byte>, p: seq<byte>, f: Fields, sha256: seq<byte> -> Digest)
    requires LayoutOf(d).Ok? && HasDescriptor(d, LayoutFound(d)) && Patched(d, p, f, sha256)
    requires LayoutOf(p) == LayoutOf(d)
    ensures Sealed(p, LayoutOf(p).value, sha256)
    ensures HasDescriptor(p, LayoutFound(p))
  {
    LayoutFacts(d);
    var at := LayoutFound(d).segments[0].start;
    assert p[23] == d[23];
    Untouched(d, p, at, at + 4);
    assert Word(p, at, 4) == Word(d, at, 4);
    hide Word, Payload, XorAll, LayoutOf;
  }

  /** An application image, a version of the right form, and texts that fit their fields. */
  ghost predicate CanPatch(image: seq<byte>, version: seq<char>, buildTime: seq<char>, buildDate: seq<char>,
                           semver: seq<char> -> bool)
  {
    && semver(version) && LayoutOf(image).Ok? && HasDescriptor(image, LayoutFound(image))
    && Encodable(version, 32) && Encodable(buildTime, 16) && Encodable(buildDate, 16)
  }

  /** Patches a copy of the image in place, as the source does before it replaces the file. */
  method PatchDescriptor(image: seq<byte>, elf: seq<byte>, version: seq<char>, buildTime: seq<char>,
                         buildDate: seq<char>, sha256: seq<byte> -> Digest, semver: seq<char> -> bool)
    returns (r: Result<seq<byte>>, ghost f: Fields)
    ensures r.Ok? <==> CanPatch(image, version, buildTime, buildDate, semver)
    ensures r.Ok? ==>
              && f.elfHash == sha256(elf) && FieldsEncode(f, version, buildTime, buildDate)
              && Patched(image, r.value, f, sha256)
  {
    f := Fields([], [], [], [], sha256(elf));
    if !semver(version) {
      return Err(VersionInvalid), f;
    }
    var parsed := ParseLayout(image);
    if parsed.Err? {
      return Err(parsed.error), f;
    }
    var layout := LayoutFound(image);
    if !HasDescriptor(image, layout) {
      return Err(NotApplicationImage), f;
    }
    var fields := EncodeFields(version, buildTime, buildDate, sha256(elf));
    if fields.Err? {
      return Err(fields.error), f;
    }
    f := fields.value;
    var patched := WritePatch(image, layout, fields.value, sha256);
    r := Ok(patched);
  }

  /**
   * The whole operation: patch, replace the file, inspect what is there now. `file` is the file afterwards. When the
   * marker lies clear of the patch, what comes back is the metadata just written.
   */
  method PatchFirmwareDescriptor(image: seq<byte>, elf: seq<byte>, version: seq<char>, buildTime: seq<char>,
                                 buildDate: seq<char>, sha256: seq<byte> -> Digest, semver: seq<char> -> bool)
    returns (file: seq<byte>, r: Result<Metadata>)
    // what can be patched is patched, and accepted exactly when the marker is still there
    ensures CanPatch(image, version, buildTime, buildDate, semver) ==>
              && LayoutOf(file) == LayoutOf(image)
              && (r.Ok? <==> Contains(file, PROTOCOL_MARKER))
              && (MarkerApart(image) ==> Contains(file, PROTOCOL_MARKER))
    ensures r.Ok? ==>
              && CanPatch(image, version, buildTime, buildDate, semver)
              && r.value == Metadata(version, PROJECT_NAME, buildTime, buildDate, sha256(elf), |image|, sha256(file),
                                     LayoutFound(image).checksumOffset)
    // otherwise the file is left alone
    ensures !CanPatch(image, version, buildTime, buildDate, semver) ==> r.Err? && file == image
  {
    var patched, f := PatchDescriptor(image, elf, version, buildTime, buildDate, sha256, semver);
    if patched.Err? {
      return image, Err(patched.error);
    }
    file := patched.value;
    r := Inspect(file, Some(version), Some(sha256(elf)), sha256, semver);
    PatchedInspection(image, file, f, version, buildTime, buildDate, sha256, semver, r);
  }

  /** Inspecting a patched image gives back what was written, or misses the marker. */
  lemma PatchedInspection(d: seq<byte>, p: seq<byte>, f: Fields, version: seq<char>, buildTime: seq<char>,
                          buildDate: seq<char>, sha256: seq<byte> -> Digest, semver: seq<char> -> bool,
                          r: Result<Metadata>)
    requires LayoutOf(d).Ok? && HasDescriptor(d, LayoutFound(d)) && Patched(d, p, f, sha256)
    requires FieldsEncode(f, version, buildTime, buildDate) && semver(version)
    requires InspectedAs(p, Some(version), Some(f.elfHash), sha256, semver, r)
    ensures LayoutOf(p) == LayoutOf(d)
    ensures r.Ok? <==> Contains(p, PROTOCOL_MARKER)
    ensures MarkerApart(d) ==> r.Ok?
    ensures r.Ok? ==>
              r.value == Metadata(version, PROJECT_NAME, buildTime, buildDate, f.elfHash, |d|, sha256(p),
                                  LayoutFound(d).checksumOffset)
  {
    PatchKeepsLayout(d, p, f, sha256);
    PatchedReads(p, LayoutFound(d).segments[0].start, f, version, buildTime, buildDate);
    PatchedImagePassesIff(d, p, f, version, buildTime, buildDate, sha256, semver);
    assert |p| == |d|;
    hide Patched, FieldsEncode, MarkerApart, HasDescriptor, Sealed, DecodeField, Acceptable, Contains, LayoutOf;
  }

  /** The descriptor's texts, encoded in the order the source writes them. */
  method EncodeFields(version: seq<char>, buildTime: seq<char>, buildDate: seq<char>, elfHash: Digest)
    returns (r: Result<Fields>)
    ensures r.Ok? <==> Encodable(version, 32) && Encodable(buildTime, 16) && Encodable(buildDate, 16)
    ensures r.Ok? ==>
              Fitting(r.value) && r.value.elfHash == elfHash && FieldsEncode(r.value, version, buildTime, buildDate)
  {
    FieldRoundTrip(version, 32, VersionField, [], 0);
    FieldRoundTrip(PROJECT_NAME, 32, ProjectField, [], 0);
    FieldRoundTrip(buildTime, 16, BuildTimeField, [], 0);
    FieldRoundTrip(buildDate, 16, BuildDateField, [], 0);
    assert Encodable(PROJECT_NAME, 32);
    hide Encodable;
    var v := EncodeField(version, 32, VersionField);
    if v.Err? {
      return Err(v.error);
    }
    var project := EncodeField(PROJECT_NAME, 32, ProjectField);
    var time := EncodeField(buildTime, 16, BuildTimeField);
    if time.Err? {
      return Err(time.error);
    }
    var date := EncodeField(buildDate, 16, BuildDateField);
    if date.Err? {
      return Err(date.error);
    }
    r := Ok(Fields(v.value, project.value, time.value, date.value, elfHash));
  }

  method WritePatch(image: seq<byte>, layout: Layout, f: Fields, sha256: seq<byte> -> Digest)
    returns (patched: seq<byte>)
    requires LayoutOf(image) == Ok(layout) && HasDescriptor(image, LayoutFound(image)) && Fitting(f)
    ensures Patched(image, patched, f, sha256)
  {
    LayoutFacts(image);
    var at := layout.segments[0].start;
    var data := new byte[|image|](i requires 0 <= i < |image| => image[i]);
    assert data[..] == image;
    WriteFields(data, at, f);
    ghost var described := data[..];
    assert described[23] == image[23];
    patched := Reseal(data, layout, sha256);
    assert forall i :: 0 <= i < layout.imageLength && i != layout.checksumOffset ==> patched[i] == described[i];
    Resealed(image, described, patched, f, sha256);
  }

  method WriteFields(data: array<byte>, at: nat, f: Fields)
    requires at + DESCRIPTOR_SIZE <= data.Length && Fitting(f)
    modifies data
    ensures HoldsFields(data[..], at, f)
    ensures forall i :: 0 <= i < data.Length && !InFields(at, i) ==> data[i] == old(data[i])
  {
    ghost var before := data[..];
    Overwrite(data, at + 16, f.version);
    Overwrite(data, at + 48, f.project);
    Overwrite(data, at + 80, f.buildTime);
    Overwrite(data, at + 96, f.buildDate);
    Overwrite(data, at + 144, f.elfHash);
    DescribedFields(before, at, f);
    assert data[..] == Described(before, at, f);
    assert forall i :: 0 <= i < data.Length ==> data[i] == data[..][i] && before[i] == old(data[i]);
  }

  /** Recomputes the checksum byte and the trailing digest. */
  method Reseal(data: array<byte>, layout: Layout, sha256: seq<byte> -> Digest) returns (patched: seq<byte>)
    requires forall i :: 0 <= i < |layout.segments| ==>
               layout.segments[i].start <= layout.segments[i].end <= layout.checksumOffset
    requires data.Length >= 24 && layout.checksumOffset < layout.imageLength <= data.Length
    requires data.Length == layout.imageLength + (if data[23] == 1 then 32 else 0) && layout.checksumOffset > 23
    modifies data
    ensures patched == data[..] && |patched| == data.Length
    ensures forall i :: 0 <= i < layout.imageLength && i != layout.checksumOffset ==> patched[i] == old(data[i])
    ensures patched[layout.checksumOffset] == XorAll(CHECKSUM_MAGIC, Payload(old(data[..]), layout.segments))
    ensures patched[23] == 1 ==> patched[layout.imageLength..] == sha256(patched[..layout.imageLength])
  {
    ghost var before := data[..];
    data[layout.checksumOffset] := Checksum(data[..], layout.segments);
    if data[23] == 1 {
      var digest := sha256(data[..layout.imageLength]);
      ghost var front := data[..layout.imageLength];
      Overwrite(data, layout.imageLength, digest);
      assert data[..layout.imageLength] == front;
    }
    patched := data[..];
    assert patched[..layout.imageLength] == data[..layout.imageLength];
  }

  lemma Resealed(d: seq<byte>, described: seq<byte>, p: seq<byte>, f: Fields, sha256: seq<byte> -> Digest)
    requires LayoutOf(d).Ok? && HasDescriptor(d, LayoutFound(d)) && |p| == |described| == |d|
    requires var at := LayoutFound(d).segments[0].start;
             && at + DESCRIPTOR_SIZE <= |described| && HoldsFields(described, at, f)
             && forall i :: 0 <= i < |d| && !InFields(at, i) ==> described[i] == d[i]
    requires var l := LayoutFound(d);
             && (forall i :: 0 <= i < l.imageLength && i != l.checksumOffset ==> p[i] == described[i])
             && p[l.checksumOffset] == XorAll(CHECKSUM_MAGIC, Payload(described, l.segments))
             && (p[23] == 1 ==> p[l.imageLength..] == sha256(p[..l.imageLength]))
    ensures Patched(d, p, f, sha256)
  {
    LayoutFacts(d);
    var l := LayoutFound(d);
    var at := l.segments[0].start;
    assert p[23] == d[23];
    SamePayload(described, p, l.segments);
    Untouched(described, p, at + 16, at + 48);
    Untouched(described, p, at + 48, at + 80);
    Untouched(described, p, at + 80, at + 96);
    Untouched(described, p, at + 96, at + 112);
    Untouched(described, p, at + 144, at + 176);
  }
}
