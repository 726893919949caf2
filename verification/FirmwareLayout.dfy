/** The files that the layout checks of tools/firmware_image.py accept, written out part by part. */
module FirmwareLayout {
  import opened Bytes
  import opened FirmwareImage

  /** A segment: where it is loaded, and its data. */
  datatype Part = Part(address: seq<byte>, content: seq<byte>)

  datatype File = File(header: seq<byte>, parts: seq<Part>, checksum: byte, digest: seq<byte>)

  predicate PartOk(p: Part)
  {
    |p.address| == 4 && 0 < |p.content| < U32_LIMIT
  }

  predicate PartsOk(parts: seq<Part>)
  {
    forall i :: 0 <= i < |parts| ==> PartOk(parts[i])
  }

  /** The header names an image for this chip with one to sixteen segments, with or without a digest. */
  predicate FileOk(f: File)
  {
    && |f.header| == 24 && f.header[0] == 0xE9
    && 1 <= |f.parts| <= 16 && f.header[1] == |f.parts| && PartsOk(f.parts)
    && f.header[12] == 9 && f.header[13] == 0
    && f.header[23] <= 1 && |f.digest| == 32 * f.header[23]
  }

  function PartBytes(p: Part): seq<byte>
  {
    p.address + LittleEndian(|p.content|, 4) + p.content
  }

  function PartsBytes(parts: seq<Part>): seq<byte>
  {
    if parts == [] then [] else PartBytes(parts[0]) + PartsBytes(parts[1..])
  }

  function Body(f: File): seq<byte> { f.header + PartsBytes(f.parts) }

  function Padding(f: File): seq<byte> { seq(15 - |Body(f)| % 16, i => 0) }

  function FileBytes(f: File): seq<byte> { Body(f) + Padding(f) + [f.checksum] + f.digest }

  function ExtentsOf(parts: seq<Part>, cursor: nat): seq<Extent>
    decreases |parts|
  {
    if parts == [] then []
    else
      var end := cursor + 8 + |parts[0].content|;
      [Extent(cursor + 8, end)] + ExtentsOf(parts[1..], end)
  }

  function Contents(parts: seq<Part>): seq<byte>
  {
    if parts == [] then [] else Contents(parts[..|parts| - 1]) + parts[|parts| - 1].content
  }

  /** `s` stands in `data` from `cursor` on. */
  predicate StandsAt(data: seq<byte>, cursor: nat, s: seq<byte>)
  {
    cursor + |s| <= |data| && data[cursor..cursor + |s|] == s
  }

  lemma StandsSplit(data: seq<byte>, cursor: nat, a: seq<byte>, b: seq<byte>)
    ensures StandsAt(data, cursor, a + b) <==> StandsAt(data, cursor, a) && StandsAt(data, cursor + |a|, b)
  {
    if cursor + |a| + |b| <= |data| {
      assert data[cursor..cursor + |a + b|] == data[cursor..cursor + |a|] + data[cursor + |a|..cursor + |a| + |b|];
      assert (a + b)[..|a|] == a && (a + b)[|a|..] == b;
    }
  }

  /** One segment, its size field read as a number. */
  lemma PartStands(data: seq<byte>, cursor: nat, p: Part)
    requires PartOk(p) && StandsAt(data, cursor, PartBytes(p))
    ensures cursor + 8 <= |data| && Word(data, cursor + 4, 4) == |p.content| && |PartBytes(p)| == 8 + |p.content|
    ensures StandsAt(data, cursor + 8, p.content)
  {
    var size := LittleEndian(|p.content|, 4);
    StandsSplit(data, cursor, p.address + size, p.content);
    StandsSplit(data, cursor, p.address, size);
    Widths();
    ReadBack(|p.content|, 4);
  }

  lemma {:induction false} PartsParse(data: seq<byte>, cursor: nat, parts: seq<Part>)
    requires PartsOk(parts) && StandsAt(data, cursor, PartsBytes(parts))
    ensures Segments(data, cursor, |parts|) == Some(ExtentsOf(parts, cursor))
    ensures EndOf(ExtentsOf(parts, cursor), cursor) == cursor + |PartsBytes(parts)|
    decreases |parts|
  {
    if parts != [] {
      StandsSplit(data, cursor, PartBytes(parts[0]), PartsBytes(parts[1..]));
      PartStands(data, cursor, parts[0]);
      PartsParse(data, cursor + |PartBytes(parts[0])|, parts[1..]);
    }
  }

  lemma PartRead(data: seq<byte>, cursor: nat) returns (p: Part)
    requires cursor + 8 <= |data| && 0 < Word(data, cursor + 4, 4) <= |data| - cursor - 8
    ensures PartOk(p) && StandsAt(data, cursor, PartBytes(p))
    ensures |PartBytes(p)| == 8 + Word(data, cursor + 4, 4)
  {
    var field := data[cursor + 4..cursor + 8];
    var size := Word(data, cursor + 4, 4);
    p := Part(data[cursor..cursor + 4], data[cursor + 8..cursor + 8 + size]);
    Bounded(field);
    Widths();
    WriteBack(field);
    StandsSplit(data, cursor, p.address + field, p.content);
    StandsSplit(data, cursor, p.address, field);
  }

  /** Whatever the segment loop accepts is such a list of parts. */
  lemma {:induction false} PartsRead(data: seq<byte>, cursor: nat, count: nat) returns (parts: seq<Part>)
    requires cursor <= |data| && Segments(data, cursor, count).Some?
    ensures |parts| == count && PartsOk(parts) && StandsAt(data, cursor, PartsBytes(parts))
    decreases count
  {
    if count == 0 {
      return [];
    }
    var end := cursor + 8 + Word(data, cursor + 4, 4);
    var p := PartRead(data, cursor);
    var rest := PartsRead(data, end, count - 1);
    hide StandsAt, PartBytes;
    parts := [p] + rest;
    StandsSplit(data, cursor, PartBytes(p), PartsBytes(rest));
    assert parts[1..] == rest;
  }

  lemma ChipField(data: seq<byte>)
    requires |data| >= 24
    ensures Word(data, 12, 2) == 9 <==> data[12] == 9 && data[13] == 0
  {
    var s := data[12..14];
    assert FromLittleEndian(s) == s[0] + 256 * FromLittleEndian(s[1..]);
    assert FromLittleEndian(s[1..]) == s[1] + 256 * FromLittleEndian(s[1..][1..]);
  }

  lemma BytesOfFile(f: File)
    requires FileOk(f)
    ensures var data, end := FileBytes(f), |Body(f)| + |Padding(f)|;
            && |data| == end + 1 + |f.digest| && (forall i :: 0 <= i < 24 ==> data[i] == f.header[i])
            && StandsAt(data, 24, PartsBytes(f.parts)) && data[|Body(f)|..end] == Padding(f)
            && data[end] == f.checksum && data[..end + 1] == Body(f) + Padding(f) + [f.checksum]
            && data[end + 1..] == f.digest
  {
    var data, body := FileBytes(f), Body(f);
    hide PartsBytes;
    assert data == body + (Padding(f) + [f.checksum] + f.digest);
    assert data[..|body|] == body && body[24..] == PartsBytes(f.parts);
  }

  /** Every such file is accepted, and its layout is that of its parts. */
  lemma FileParses(f: File)
    requires FileOk(f)
    ensures var end := |Body(f)| + |Padding(f)|;
            LayoutOf(FileBytes(f)) == Ok(Layout(ExtentsOf(f.parts, 24), end, end + 1))
  {
    var data := FileBytes(f);
    BytesOfFile(f);
    PartsParse(data, 24, f.parts);
    ChipField(data);
    assert data[0] == 0xE9 && data[1] == |f.parts| && data[12] == 9 && data[13] == 0;
    hide FileBytes, Segments, PartsBytes, StandsAt, EndOf, ExtentsOf, Word, PartOk;
  }

  lemma LayoutChecks(data: seq<byte>)
    requires LayoutOf(data).Ok?
    ensures var l := LayoutOf(data).value;
            var end := EndOf(l.segments, 24);
            && |data| >= 24 && data[0] == 0xE9 && 1 <= data[1] <= 16 && Word(data, 12, 2) == 9 && data[23] <= 1
            && Segments(data, 24, data[1]) == Some(l.segments)
            && l.checksumOffset == end + (15 - end % 16) && l.imageLength == l.checksumOffset + 1
            && |data| == l.imageLength + 32 * data[23] && Zeroes(data[end..l.checksumOffset])
  {
    hide Segments, EndOf, Word;
  }

  /** And every accepted file is one. */
  lemma FileRead(data: seq<byte>) returns (f: File)
    requires LayoutOf(data).Ok?
    ensures FileOk(f) && FileBytes(f) == data
  {
    var l := LayoutOf(data).value;
    LayoutChecks(data);
    ChipField(data);
    var parts := PartsRead(data, 24, data[1]);
    PartsParse(data, 24, parts);
    hide LayoutOf, Segments, PartsBytes, ExtentsOf, EndOf, Word, PartOk;
    f := File(data[..24], parts, data[l.checksumOffset], data[l.imageLength..]);
    var end := 24 + |PartsBytes(parts)|;
    Cut(data, 24, end);
    assert Padding(f) == data[end..l.checksumOffset];
    Joined(data, end, l.checksumOffset);
  }

  lemma Cut(data: seq<byte>, a: nat, b: nat)
    requires a <= b <= |data|
    ensures data[..b] == data[..a] + data[a..b]
  {
  }

  lemma Joined(data: seq<byte>, a: nat, b: nat)
    requires a <= b < |data|
    ensures data == data[..a] + data[a..b] + [data[b]] + data[b + 1..]
  {
  }

  lemma LayoutIsGrammar(data: seq<byte>)
    ensures LayoutOf(data).Ok? <==> exists f :: FileOk(f) && FileBytes(f) == data
  {
    if LayoutOf(data).Ok? {
      var f := FileRead(data);
    }
    forall f | FileOk(f) && FileBytes(f) == data
      ensures LayoutOf(data).Ok?
    {
      FileParses(f);
    }
  }

  // ----- the seals and the descriptor ------------------------------------------------------------------

  lemma {:induction false} ExtentStands(data: seq<byte>, cursor: nat, parts: seq<Part>, i: nat)
    requires PartsOk(parts) && StandsAt(data, cursor, PartsBytes(parts)) && i < |parts|
    ensures |ExtentsOf(parts, cursor)| == |parts|
    ensures var e := ExtentsOf(parts, cursor)[i];
            e.start <= e.end <= |data| && data[e.start..e.end] == parts[i].content
    decreases |parts|
  {
    StandsSplit(data, cursor, PartBytes(parts[0]), PartsBytes(parts[1..]));
    PartStands(data, cursor, parts[0]);
    if |parts| > 1 {
      ExtentStands(data, cursor + |PartBytes(parts[0])|, parts[1..], if i > 0 then i - 1 else 0);
    }
  }

  lemma {:induction false} PayloadIsContents(data: seq<byte>, segments: seq<Extent>, parts: seq<Part>)
    requires |segments| == |parts|
    requires forall i :: 0 <= i < |segments| ==> segments[i].start <= segments[i].end <= |data|
    requires forall i :: 0 <= i < |segments| ==> data[segments[i].start..segments[i].end] == parts[i].content
    ensures Payload(data, segments) == Contents(parts)
  {
    if parts != [] {
      var n := |parts| - 1;
      PayloadIsContents(data, segments[..n], parts[..n]);
    }
  }

  lemma DescriptorMagic(s: seq<byte>)
    requires |s| == 4
    ensures FromLittleEndian(s) == DESCRIPTOR_MAGIC <==> s == [0x32, 0x54, 0xCD, 0xAB]
  {
    var magic := [0x32, 0x54, 0xCD, 0xAB];
    assert FromLittleEndian(magic) == DESCRIPTOR_MAGIC by {
      assert magic[1..] == [0x54, 0xCD, 0xAB] && magic[1..][1..] == [0xCD, 0xAB];
      assert magic[1..][1..][1..] == [0xAB] && magic[1..][1..][1..][1..] == [];
    }
    if FromLittleEndian(s) == DESCRIPTOR_MAGIC {
      ReadInjective(s, magic);
    }
  }

  /**
   * It is sealed when the checksum byte is the exclusive or of 0xEF with all contents, and the digest, if there is one,
   * that of everything before it; it has a descriptor when its first content has at least 256 bytes and starts with
   * the magic ones.
   */
  lemma ApplicationIs(f: File, sha256: seq<byte> -> Digest)
    requires FileOk(f)
    ensures var data := FileBytes(f);
            && LayoutOf(data).Ok?
            && (Sealed(data, LayoutFound(data), sha256) <==>
                  && f.checksum == XorAll(0xEF, Contents(f.parts))
                  && (f.digest != [] ==> sha256(Body(f) + Padding(f) + [f.checksum]) == f.digest))
            && (HasDescriptor(data, LayoutFound(data)) <==>
                  |f.parts[0].content| >= 256 && f.parts[0].content[..4] == [0x32, 0x54, 0xCD, 0xAB])
  {
    var data := FileBytes(f);
    FileParses(f);
    var layout := LayoutFound(data);
    BytesOfFile(f);
    hide FileBytes, LayoutOf, PartsBytes, StandsAt, ExtentsOf, Segments;
    forall i: nat | i < |f.parts|
      ensures |layout.segments| == |f.parts|
      ensures data[layout.segments[i].start..layout.segments[i].end] == f.parts[i].content
    {
      ExtentStands(data, 24, f.parts, i);
    }
    PayloadIsContents(data, layout.segments, f.parts);
    assert data[23] == f.header[23];
    var first := layout.segments[0];
    ExtentStands(data, 24, f.parts, 0);
    if first.end - first.start >= 4 {
      assert data[first.start..first.start + 4] == f.parts[0].content[..4];
      DescriptorMagic(f.parts[0].content[..4]);
    }
  }

  /** A field reads as a text exactly when it holds the text's codes and then a NUL; what follows is not looked at. */
  lemma FieldReadsIff(data: seq<byte>, start: nat, size: nat, field: Field, text: seq<char>)
    ensures DecodeField(data, start, size, field) == Ok(text) <==>
              && Encodable(text, size) && start + size <= |data| && data[start + |text|] == 0
              && forall i :: 0 <= i < |text| ==> data[start + i] == text[i] as int
  {
    if start + size <= |data| {
      var s := data[start..start + size];
      var value := UpToNul(s);
      if DecodeField(data, start, size, field) == Ok(text) {
        assert forall i :: 0 <= i < |text| ==> text[i] as int == value[i] == s[i] == data[start + i];
      }
      if Encodable(text, size) && data[start + |text|] == 0
         && (forall i :: 0 <= i < |text| ==> data[start + i] == text[i] as int) {
        TextRead(s, text, size);
        assert seq(|value|, i requires 0 <= i < |value| => value[i] as char) == text;
      }
    }
  }

  lemma TextRead(s: seq<byte>, text: seq<char>, size: nat)
    requires Encodable(text, size) && |s| == size && s[|text|] == 0
    requires forall i :: 0 <= i < |text| ==> s[i] == text[i] as int
    ensures UpToNul(s) == s[..|text|]
  {
    assert forall i :: 0 <= i < |text| ==> s[..|text|][i] == s[i] == text[i] as int > 0;
    NulEnds(s, |text|);
  }
}
