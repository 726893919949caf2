/** Bytes, fixed-width integers and the little-endian layout shared by every codec. */
module Bytes {

  datatype Option<+T> = None | Some(value: T)

  type byte = x: int | 0 <= x < 256

  const U32_LIMIT: nat := 0x1_0000_0000
  const U64_LIMIT: nat := 0x1_0000_0000_0000_0000

  type u32 = x: int | 0 <= x < U32_LIMIT
  type u64 = x: int | 0 <= x < U64_LIMIT

  function Pow256(n: nat): nat
  {
    if n == 0 then 1 else 256 * Pow256(n - 1)
  }

  /** The `width` low-order bytes of `value`, least significant first. */
  function LittleEndian(value: nat, width: nat): (s: seq<byte>)
    ensures |s| == width
  {
    if width == 0 then [] else [value % 256] + LittleEndian(value / 256, width - 1)
  }

  function FromLittleEndian(s: seq<byte>): nat
  {
    if s == [] then 0 else s[0] + 256 * FromLittleEndian(s[1..])
  }

  lemma Widths()
    ensures Pow256(1) == 256
    ensures Pow256(2) == 0x1_0000
    ensures Pow256(4) == U32_LIMIT
    ensures Pow256(8) == U64_LIMIT
  {
    assert Pow256(2) == 256 * Pow256(1);
    assert Pow256(4) == 256 * (256 * Pow256(2));
    assert Pow256(8) == 256 * (256 * (256 * (256 * Pow256(4))));
  }

  lemma {:induction false} ReadBack(value: nat, width: nat)
    requires value < Pow256(width)
    ensures FromLittleEndian(LittleEndian(value, width)) == value
  {
    if width != 0 {
      ReadBack(value / 256, width - 1);
      assert LittleEndian(value, width)[1..] == LittleEndian(value / 256, width - 1);
    }
  }

  lemma {:induction false} Bounded(s: seq<byte>)
    ensures FromLittleEndian(s) < Pow256(|s|)
  {
    if s != [] {
      Bounded(s[1..]);
    }
  }

  /** A 64-bit field. */
  function Wide(s: seq<byte>): (v: u64)
    requires |s| == 8
  {
    Bounded(s);
    Widths();
    FromLittleEndian(s)
  }

  lemma LowByte(low: byte, rest: nat)
    ensures (low + 256 * rest) % 256 == low && (low + 256 * rest) / 256 == rest
  {
  }

  lemma {:induction false} WriteBack(s: seq<byte>)
    ensures LittleEndian(FromLittleEndian(s), |s|) == s
  {
    if s != [] {
      WriteBack(s[1..]);
      LowByte(s[0], FromLittleEndian(s[1..]));
      assert s == [s[0]] + s[1..];
    }
  }

  /** Two fields of equal width that read as the same number are the same bytes. */
  lemma {:induction false} ReadInjective(s: seq<byte>, t: seq<byte>)
    requires |s| == |t|
    requires FromLittleEndian(s) == FromLittleEndian(t)
    ensures s == t
  {
    if s != [] {
      ReadInjective(s[1..], t[1..]);
      assert s == [s[0]] + s[1..];
      assert t == [t[0]] + t[1..];
    }
  }

  /** Replacing one byte of a field changes the number it reads as. */
  lemma ReadDetectsChange(s: seq<byte>, i: nat, b: byte)
    requires i < |s| && b != s[i]
    ensures FromLittleEndian(s[i := b]) != FromLittleEndian(s)
  {
    assert s[i := b][i] != s[i];
    if FromLittleEndian(s[i := b]) == FromLittleEndian(s) {
      ReadInjective(s[i := b], s);
    }
  }

  /** The append loop of the encoders: one byte per 8-bit shift. */
  method AppendLittleEndian(output: seq<byte>, value: nat, width: nat) returns (appended: seq<byte>)
    ensures appended == output + LittleEndian(value, width)
  {
    appended := output;
    var rest := value;
    for k := 0 to width
      invariant appended + LittleEndian(rest, width - k) == output + LittleEndian(value, width)
    {
      assert LittleEndian(rest, width - k) == [rest % 256] + LittleEndian(rest / 256, width - k - 1);
      appended := appended + [rest % 256];
      rest := rest / 256;
    }
  }

  /** The number in the `width` bytes at `offset`, or None when they run past the end. */
  function FieldAt(input: seq<byte>, offset: nat, width: nat): Option<nat>
  {
    if offset + width > |input| then None
    else Some(FromLittleEndian(input[offset..offset + width]))
  }

  /** The read loop of the decoders; shift weights are powers of 256. */
  method ReadLittleEndian(input: seq<byte>, offset: nat, width: nat) returns (value: Option<nat>)
    ensures value == FieldAt(input, offset, width)
  {
    if offset + width > |input| {
      return None;
    }
    var sum: nat := 0;
    var k := width;
    while k > 0
      invariant 0 <= k <= width
      invariant sum == FromLittleEndian(input[offset + k..offset + width])
    {
      k := k - 1;
      assert input[offset + k..offset + width][1..] == input[offset + k + 1..offset + width];
      sum := input[offset + k] + 256 * sum;
    }
    value := Some(sum);
  }
}
