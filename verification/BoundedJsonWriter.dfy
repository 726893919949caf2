/**
 * The JSON string writer of include/api/BoundedJsonWriter.h, and what it writes read back by section 7 of RFC 8259.
 * A null buffer is a buffer of no bytes: the source treats both alike.
 */
module BoundedJson {
  import opened Bytes
  import opened Utf8

  const QUOTE: byte := 0x22
  const BACKSLASH: byte := 0x5C
  const SMALL_U: byte := 0x75

  // ----- reading: section 7 of RFC 8259 --------------------------------------------------------------

  /** The character that a two-character escape stands for. */
  function ShortEscape(letter: byte): Option<Scalar>
  {
    if letter == 0x22 then Some(0x22)
    else if letter == 0x5C then Some(0x5C)
    else if letter == 0x2F then Some(0x2F)
    else if letter == 0x62 then Some(0x08)
    else if letter == 0x66 then Some(0x0C)
    else if letter == 0x6E then Some(0x0A)
    else if letter == 0x72 then Some(0x0D)
    else if letter == 0x74 then Some(0x09)
    else None
  }

  function HexValue(digit: byte): Option<nat>
  {
    if 0x30 <= digit <= 0x39 then Some(digit - 0x30)
    else if 0x41 <= digit <= 0x46 then Some(digit - 0x41 + 10)
    else if 0x61 <= digit <= 0x66 then Some(digit - 0x61 + 10)
    else None
  }

  /** The code unit of an escape of four hexadecimal digits. */
  function CodeUnit(s: seq<byte>): Option<nat>
  {
    if |s| < 4 || HexValue(s[0]).None? || HexValue(s[1]).None? || HexValue(s[2]).None? || HexValue(s[3]).None? then None
    else Some(HexValue(s[0]).value * 0x1000 + HexValue(s[1]).value * 0x100
              + HexValue(s[2]).value * 0x10 + HexValue(s[3]).value)
  }

  /** What an escape after the backslash and `u` stands for, and its length: one code unit, or a surrogate pair. */
  function UnicodeEscape(s: seq<byte>): (r: Option<(Scalar, nat)>)
    ensures r.Some? ==> 4 <= r.value.1 <= |s|
  {
    var unit := CodeUnit(s);
    if unit.None? then None
    else if 0 <= unit.value < 0xD800 || 0xE000 <= unit.value < 0x1_0000 then Some((unit.value, 4))
    else if unit.value < 0xDC00 && |s| >= 10 && s[4] == BACKSLASH && s[5] == SMALL_U then
      var low := CodeUnit(s[6..]);
      if low.Some? && 0xDC00 <= low.value < 0xE000
      then Some((0x1_0000 + (unit.value - 0xD800) * 0x400 + (low.value - 0xDC00), 10))
      else None
    else None
  }

  /** The characters up to the closing quotation mark, which must end the text. */
  function Characters(s: seq<byte>): Option<seq<Scalar>>
  {
    if s == [] then None
    else if s[0] == QUOTE then (if |s| == 1 then Some([]) else None)
    else if s[0] == BACKSLASH then
      if |s| < 2 then None
      else if s[1] == SMALL_U then
        var e := UnicodeEscape(s[2..]);
        if e.None? then None else Consed(e.value.0, Characters(s[2 + e.value.1..]))
      else
        var e := ShortEscape(s[1]);
        if e.None? then None else Consed(e.value, Characters(s[2..]))
    else if s[0] < 0x20 then None
    else
      var n := LeadingLength(s);
      if n == 0 then None
      else
        WellFormedIsEncode(s[..n]);
        Consed(Value(s[..n]), Characters(s[n..]))
  }

  function Consed(c: Scalar, rest: Option<seq<Scalar>>): Option<seq<Scalar>>
  {
    match rest case None => None case Some(cs) => Some([c] + cs)
  }

  function ParseString(s: seq<byte>): Option<seq<Scalar>>
  {
    if s == [] || s[0] != QUOTE then None else Characters(s[1..])
  }

  // ----- writing -------------------------------------------------------------------------------------

  function LowerHex(d: nat): byte
    requires d < 16
  {
    if d < 10 then 0x30 + d else 0x61 + d - 10
  }

  function Escape(letter: byte): seq<byte> { [BACKSLASH, letter] }

  /** What the writer emits for the front of non-empty input, and how much input that uses up. */
  function Piece(s: seq<byte>): (r: (seq<byte>, nat))
    requires s != []
    ensures 1 <= r.1 <= |s| && r.0 != []
  {
    var b := s[0];
    if b == 0x22 || b == 0x5C then (Escape(b), 1)
    else if b == 0x08 then (Escape(0x62), 1)
    else if b == 0x0C then (Escape(0x66), 1)
    else if b == 0x0A then (Escape(0x6E), 1)
    else if b == 0x0D then (Escape(0x72), 1)
    else if b == 0x09 then (Escape(0x74), 1)
    else if b < 0x20 then ([BACKSLASH, SMALL_U, 0x30, 0x30, LowerHex(b / 16), LowerHex(b % 16)], 1)
    else if LeadingLength(s) == 0 then ([BACKSLASH, SMALL_U, 0x66, 0x66, 0x66, 0x64], 1)
    else (s[..LeadingLength(s)], LeadingLength(s))
  }

  function Body(s: seq<byte>): seq<byte>
  {
    if s == [] then [] else Piece(s).0 + Body(s[Piece(s).1..])
  }

  function Quoted(s: seq<byte>): seq<byte>
  {
    [QUOTE] + Body(s) + [QUOTE]
  }

  // ----- what is written means the input -------------------------------------------------------------

  lemma ControlEscape(b: byte)
    requires b < 0x20
    ensures CodeUnit([0x30, 0x30, LowerHex(b / 16), LowerHex(b % 16)]) == Some(b)
  {
    assert b == b / 16 * 16 + b % 16;
  }

  lemma UnicodeEscapeFront(s: seq<byte>, rest: seq<byte>)
    requires |s| == 4 && CodeUnit(s).Some? && (CodeUnit(s).value < 0xD800 || 0xE000 <= CodeUnit(s).value < 0x1_0000)
    ensures UnicodeEscape(s + rest) == Some((CodeUnit(s).value, 4))
  {
    assert (s + rest)[0] == s[0] && (s + rest)[1] == s[1] && (s + rest)[2] == s[2] && (s + rest)[3] == s[3];
  }

  /** A written \u escape, followed by anything, reads as its code unit and then the rest. */
  lemma EscapedReads(digits: seq<byte>, rest: seq<byte>)
    requires |digits| == 4 && CodeUnit(digits).Some?
    requires CodeUnit(digits).value < 0xD800 || 0xE000 <= CodeUnit(digits).value < 0x1_0000
    ensures Characters([BACKSLASH, SMALL_U] + digits + rest) == Consed(CodeUnit(digits).value, Characters(rest))
  {
    var s := [BACKSLASH, SMALL_U] + digits + rest;
    assert s[2..] == digits + rest;
    assert s[6..] == rest;
    UnicodeEscapeFront(digits, rest);
  }

  lemma ShortReads(letter: byte, rest: seq<byte>)
    requires ShortEscape(letter).Some? && letter != SMALL_U
    ensures Characters(Escape(letter) + rest) == Consed(ShortEscape(letter).value, Characters(rest))
  {
    assert (Escape(letter) + rest)[2..] == rest;
  }

  lemma PlainReads(s: seq<byte>, rest: seq<byte>)
    requires WellFormed(s) && s[0] >= 0x20 && s[0] != QUOTE && s[0] != BACKSLASH
    ensures 0 <= Value(s) < 0x11_0000 && !(0xD800 <= Value(s) < 0xE000)
    ensures Characters(s + rest) == Consed(Value(s), Characters(rest))
  {
    assert (s + rest)[..|s|] == s && (s + rest)[|s|..] == rest;
    LeadingUnique(s + rest, |s|);
    WellFormedIsEncode(s);
  }

  /** Each piece reads as the next scalar value of the input. */
  lemma PieceReads(s: seq<byte>, rest: seq<byte>)
    requires s != []
    ensures Scalars(s) != [] && Scalars(s)[1..] == Scalars(s[Piece(s).1..])
    ensures Characters(Piece(s).0 + rest) == Consed(Scalars(s)[0], Characters(rest))
  {
    var b, n := s[0], LeadingLength(s);
    if b < 0x80 {
      assert WellFormed(s[..1]);
      LeadingUnique(s, 1);
    }
    if b == 0x22 || b == 0x5C || b == 0x08 || b == 0x0C || b == 0x0A || b == 0x0D || b == 0x09 {
      ShortReads(Piece(s).0[1], rest);
    } else if b < 0x20 {
      ControlEscape(b);
      EscapedReads(Piece(s).0[2..], rest);
      assert [BACKSLASH, SMALL_U] + Piece(s).0[2..] == Piece(s).0;
    } else if n == 0 {
      EscapedReads(Piece(s).0[2..], rest);
      assert [BACKSLASH, SMALL_U] + Piece(s).0[2..] == Piece(s).0;
    } else {
      PlainReads(s[..n], rest);
    }
  }

  lemma {:induction false} BodyReads(s: seq<byte>)
    ensures Characters(Body(s) + [QUOTE]) == Some(Scalars(s))
  {
    if s == [] {
      assert Body(s) + [QUOTE] == [QUOTE];
    } else {
      var (piece, n) := Piece(s);
      BodyReads(s[n..]);
      PieceReads(s, Body(s[n..]) + [QUOTE]);
      assert Body(s) + [QUOTE] == piece + (Body(s[n..]) + [QUOTE]);
    }
  }

  /** What is written is a JSON string that unescapes to the input, read as UTF-8 with malformed bytes replaced. */
  lemma QuotedMeansInput(s: seq<byte>)
    ensures ParseString(Quoted(s)) == Some(Scalars(s))
  {
    BodyReads(s);
    assert Quoted(s)[1..] == Body(s) + [QUOTE];
  }

  /** Well-formed text survives unchanged. */
  lemma TextRoundTrip(cs: seq<Scalar>)
    ensures ParseString(Quoted(EncodeAll(cs))) == Some(cs)
  {
    QuotedMeansInput(EncodeAll(cs));
    ScalarsOfText(cs);
  }

  // ----- the writer ----------------------------------------------------------------------------------

  /** The code point built so far from the lead's bits and the continuation bytes read. */
  function Folded(high: nat, tails: seq<byte>): nat
  {
    if tails == [] then high else Folded(high, tails[..|tails| - 1]) * 64 + tails[|tails| - 1] % 64
  }

  /** The length the lead byte announces, 0 for none, with the lead's own bits. */
  function Announced(lead: byte): (r: (nat, nat))
    ensures lead >= 0x80 ==> r.0 in {0, 2, 3, 4}
  {
    if 0xC2 <= lead <= 0xDF then (2, lead % 0x20)
    else if 0xE0 <= lead <= 0xEF then (3, lead % 0x10)
    else if 0xF0 <= lead <= 0xF4 then (4, lead % 8)
    else (0, 0)
  }

  lemma FoldedIsValue(s: seq<byte>)
    requires s != [] && |s| == Announced(s[0]).0
    requires forall j :: 1 <= j < |s| ==> IsTail(s[j])
    ensures Folded(Announced(s[0]).1, s[1..]) == Value(s)
  {
    var high, tails := Announced(s[0]).1, s[1..];
    LeadBits(s[0]);
    assert forall j :: 0 <= j < |tails| ==> tails[j] == s[j + 1] && tails[j] % 64 == tails[j] as int - 0x80;
    FoldedStep(high, tails, 1);
    if |s| >= 3 {
      FoldedStep(high, tails, 2);
    }
    if |s| == 4 {
      FoldedStep(high, tails, 3);
    }
    assert tails[..0] == [];
    assert tails[..|s| - 1] == tails;
  }

  lemma LeadBits(lead: byte)
    ensures var (length, high) := Announced(lead);
            && (length == 2 ==> high == lead as int - 0xC0)
            && (length == 3 ==> high == lead as int - 0xE0)
            && (length == 4 ==> high == lead as int - 0xF0)
  {
  }

  lemma FoldedStep(high: nat, tails: seq<byte>, k: nat)
    requires 0 < k <= |tails|
    ensures Folded(high, tails[..k]) == Folded(high, tails[..k - 1]) * 64 + tails[k - 1] % 64
  {
    assert tails[..k][..k - 1] == tails[..k - 1];
  }

  /** The source's range tests on the code point select what the grammar of RFC 3629 selects. */
  lemma RangesAreGrammar(s: seq<byte>)
    requires s != [] && |s| == Announced(s[0]).0
    requires forall j :: 1 <= j < |s| ==> IsTail(s[j])
    ensures var v := Value(s);
            WellFormed(s) <==>
              !(|s| == 3 && v < 0x800) && !(|s| == 4 && v < 0x1_0000) && v <= 0x10_FFFF && !(0xD800 <= v <= 0xDFFF)
  {
  }

  /** Only the announced length can be well-formed. */
  lemma LeadFixesLength(s: seq<byte>, k: nat)
    requires k <= |s| && WellFormed(s[..k]) && s[0] >= 0x80
    ensures k == Announced(s[0]).0
    ensures forall j :: 1 <= j < k ==> IsTail(s[j])
  {
    var t := s[..k];
    assert t[0] == s[0];
    assert forall j :: 0 <= j < k ==> t[j] == s[j];
  }

  class BoundedJsonWriter {
    const buffer: array<byte>
    var size: nat
    var overflow: bool

    constructor (buffer: array<byte>)
      modifies buffer
      ensures this.buffer == buffer && size == 0 && !overflow && Valid()
    {
      this.buffer := buffer;
      size := 0;
      overflow := false;
      new;
      Terminate();
    }

    /** The output fits with its terminator behind it. */
    ghost predicate Valid()
      reads this, buffer
    {
      if buffer.Length == 0 then size == 0 else size < buffer.Length && buffer[size] == 0
    }

    function Text(): seq<byte>
      requires size <= buffer.Length
      reads this, buffer
    {
      buffer[..size]
    }

    method Terminate()
      modifies buffer
      ensures buffer.Length != 0 ==>
                buffer[..] == old(buffer[..])[(if size < buffer.Length then size else buffer.Length - 1) := 0]
    {
      if buffer.Length != 0 {
        buffer[if size < buffer.Length then size else buffer.Length - 1] := 0;
      }
    }

    method Append(data: seq<byte>) returns (ok: bool)
      requires Valid()
      modifies this, buffer
      ensures Valid()
      ensures ok <==> !old(overflow) && |old(Text())| + |data| < buffer.Length
      ensures overflow <==> !ok
      ensures Text() == if ok then old(Text()) + data else old(Text())
    {
      if || overflow || buffer.Length == 0 || |data| > buffer.Length - 1
         || size > buffer.Length - 1 - |data| {
        overflow := true;
        Terminate();
        return false;
      }
      ghost var text := Text();
      forall i | 0 <= i < |data| {
        buffer[size + i] := data[i];
      }
      size := size + |data|;
      assert buffer[..size] == text + data;
      Terminate();
      ok := true;
    }

    method Utf8SequenceLength(value: seq<byte>, index: nat) returns (length: nat)
      requires index < |value|
      ensures length == LeadingLength(value[index..])
    {
      ghost var s := value[index..];
      var lead := value[index];
      if lead < 0x80 {
        assert WellFormed(s[..1]);
        LeadingUnique(s, 1);
        return 1;
      }
      var codepoint: nat := Announced(lead).1;
      length := Announced(lead).0;
      if length == 0 || index + length > |value| {
        NothingLeads(s, length);
        return 0;
      }
      for offset := 1 to length
        invariant forall j :: 1 <= j < offset ==> IsTail(s[j])
        invariant codepoint == Folded(Announced(lead).1, s[1..offset])
      {
        var continuation := value[index + offset];
        if continuation / 64 != 2 {
          assert !IsTail(s[offset]);
          NothingLeads(s, length);
          return 0;
        }
        assert s[1..offset + 1][..offset - 1] == s[1..offset];
        codepoint := codepoint * 64 + continuation % 64;
      }
      assert s[..length][1..] == s[1..length];
      FoldedIsValue(s[..length]);
      RangesAreGrammar(s[..length]);
      if || (length == 3 && codepoint < 0x800) || (length == 4 && codepoint < 0x1_0000) || codepoint > 0x10_FFFF
         || (0xD800 <= codepoint <= 0xDFFF) {
        NothingLeads(s, length);
        return 0;
      }
      LeadingUnique(s, length);
    }

    lemma NothingLeads(s: seq<byte>, length: nat)
      requires s != [] && s[0] >= 0x80 && length == Announced(s[0]).0
      requires || length == 0 || length > |s| || !WellFormed(s[..length])
      ensures LeadingLength(s) == 0
    {
      var n := LeadingLength(s);
      if n != 0 {
        LeadFixesLength(s, n);
      }
    }

    /** Writes the piece for the front of the rest of the input. */
    method WritePiece(value: seq<byte>, index: nat) returns (ok: bool, next: nat)
      requires Valid() && index < |value|
      modifies this, buffer
      ensures Valid()
      ensures var (piece, used) := Piece(value[index..]);
              && next == index + used
              && (ok <==> !old(overflow) && |old(Text())| + |piece| < buffer.Length)
              && (overflow <==> !ok)
              && Text() == if ok then old(Text()) + piece else old(Text())
    {
      var byte := value[index];
      next := index + 1;
      if byte == 0x22 || byte == 0x5C {
        ok := Append(Escape(byte));
      } else if byte == 0x08 {
        ok := Append(Escape(0x62));
      } else if byte == 0x0C {
        ok := Append(Escape(0x66));
      } else if byte == 0x0A {
        ok := Append(Escape(0x6E));
      } else if byte == 0x0D {
        ok := Append(Escape(0x72));
      } else if byte == 0x09 {
        ok := Append(Escape(0x74));
      } else if byte < 0x20 {
        ok := Append([BACKSLASH, SMALL_U, 0x30, 0x30, LowerHex(byte / 16), LowerHex(byte % 16)]);
      } else {
        var sequence := Utf8SequenceLength(value, index);
        if sequence == 0 {
          ok := Append([BACKSLASH, SMALL_U, 0x66, 0x66, 0x66, 0x64]);
        } else {
          assert value[index..][..sequence] == value[index..index + sequence];
          ok := Append(value[index..index + sequence]);
          next := index + sequence;
        }
      }
    }

    /**
     * On success the quoted text is appended; it fits exactly when this succeeds. On failure the writer has
     * overflowed for good, and what was there before is followed by no more than a part of the quoted text.
     */
    method String(value: seq<byte>) returns (ok: bool)
      requires Valid()
      modifies this, buffer
      ensures Valid()
      ensures ok <==> !old(overflow) && |old(Text())| + |Quoted(value)| < buffer.Length
      ensures overflow <==> !ok
      ensures old(Text()) <= Text() <= old(Text()) + Quoted(value)
      ensures ok ==> Text() == old(Text()) + Quoted(value)
      ensures old(overflow) ==> Text() == old(Text())
    {
      ghost var before := Text();
      QuotedParts(before, value);
      ok := Append([QUOTE]);
      if !ok {
        return;
      }
      ok := StringBody(value);
      if !ok {
        return;
      }
      ok := Append([QUOTE]);
    }

    lemma QuotedParts(before: seq<byte>, value: seq<byte>)
      ensures before + [QUOTE] + Body(value) + [QUOTE] == before + Quoted(value)
      ensures before <= before + [QUOTE] <= before + [QUOTE] + Body(value) <= before + Quoted(value)
      ensures |Quoted(value)| == |Body(value)| + 2
    {
    }

    method StringBody(value: seq<byte>) returns (ok: bool)
      requires Valid() && !overflow && size < buffer.Length
      modifies this, buffer
      ensures Valid()
      ensures ok <==> |old(Text())| + |Body(value)| < buffer.Length
      ensures overflow <==> !ok
      ensures old(Text()) <= Text() <= old(Text()) + Body(value)
      ensures ok ==> Text() == old(Text()) + Body(value)
    {
      hide Piece, Body;
      ghost var before, written: seq<byte> := Text(), [];
      var index := 0;
      assert value[0..] == value;
      while index < |value|
        invariant index <= |value| && Valid() && !overflow && size < buffer.Length
        invariant Text() == before + written
        invariant written + Body(value[index..]) == Body(value)
        decreases |value| - index
      {
        ghost var piece := Piece(value[index..]).0;
        BodyUnfolds(value, index, written);
        PartOf(before, written, Body(value));
        Regroup(before, written, piece, written + piece);
        ok, index := WritePiece(value, index);
        if !ok {
          return;
        }
        written := written + piece;
      }
      BodyDone(value[index..]);
      ok := true;
    }

    lemma BodyDone(s: seq<byte>)
      ensures s == [] ==> Body(s) == []
    {
    }

    lemma BodyUnfolds(value: seq<byte>, index: nat, written: seq<byte>)
      requires index < |value| && written + Body(value[index..]) == Body(value)
      ensures var (piece, used) := Piece(value[index..]);
              && (written + piece) + Body(value[index + used..]) == Body(value)
              && written <= Body(value) && |written| + |piece| <= |Body(value)|
    {
      var rest := value[index..];
      var (piece, used) := Piece(rest);
      assert rest[used..] == value[index + used..];
      Regroup(written, piece, Body(rest[used..]), Body(rest));
    }

    lemma Regroup(written: seq<byte>, piece: seq<byte>, after: seq<byte>, rest: seq<byte>)
      requires rest == piece + after
      ensures (written + piece) + after == written + rest
    {
    }

    lemma PartOf(before: seq<byte>, part: seq<byte>, whole: seq<byte>)
      requires part <= whole
      ensures before <= before + part <= before + whole
    {
    }
  }
}
