/** UTF-8 as sections 3 and 4 of RFC 3629 define it. */
module Utf8 {
  import opened Bytes

  /** A Unicode scalar value. */
  type Scalar = c: int | 0 <= c < 0x11_0000 && !(0xD800 <= c < 0xE000)

  const REPLACEMENT: Scalar := 0xFFFD

  /** Section 3: the octets of a scalar value. */
  function Encode(c: Scalar): (s: seq<byte>)
    ensures 1 <= |s| <= 4
  {
    if c < 0x80 then [c]
    else if c < 0x800 then [0xC0 + c / 0x40, Tail(c)]
    else if c < 0x1_0000 then [0xE0 + c / 0x1000, Tail(c / 0x40), Tail(c)]
    else [0xF0 + c / 0x4_0000, Tail(c / 0x1000), Tail(c / 0x40), Tail(c)]
  }

  function Tail(c: nat): byte { 0x80 + c % 0x40 }

  predicate IsTail(b: byte) { 0x80 <= b < 0xC0 }

  /** Section 4: the grammar of one well-formed sequence. */
  predicate WellFormed(s: seq<byte>)
  {
    || (|s| == 1 && s[0] < 0x80)
    || (|s| == 2 && 0xC2 <= s[0] <= 0xDF && IsTail(s[1]))
    || (|s| == 3 && IsTail(s[1]) && IsTail(s[2])
        && (|| (s[0] == 0xE0 && 0xA0 <= s[1])
            || 0xE1 <= s[0] <= 0xEC
            || (s[0] == 0xED && s[1] <= 0x9F)
            || 0xEE <= s[0] <= 0xEF))
    || (|s| == 4 && IsTail(s[1]) && IsTail(s[2]) && IsTail(s[3])
        && (|| (s[0] == 0xF0 && 0x90 <= s[1])
            || 0xF1 <= s[0] <= 0xF3
            || (s[0] == 0xF4 && s[1] <= 0x8F)))
  }

  /** The number a sequence of this shape stands for. */
  function Value(s: seq<byte>): int
    requires 1 <= |s| <= 4
  {
    if |s| == 1 then s[0]
    else if |s| == 2 then (s[0] as int - 0xC0) * 0x40 + (s[1] as int - 0x80)
    else if |s| == 3 then (s[0] as int - 0xE0) * 0x1000 + (s[1] as int - 0x80) * 0x40 + (s[2] as int - 0x80)
    else (s[0] as int - 0xF0) * 0x4_0000 + (s[1] as int - 0x80) * 0x1000 + (s[2] as int - 0x80) * 0x40 + (s[3] as int - 0x80)
  }

  lemma EncodeIsWellFormed(c: Scalar)
    ensures WellFormed(Encode(c)) && Value(Encode(c)) == c
  {
    TailsAdd(c);
  }

  lemma TailsAdd(c: nat)
    ensures c == c / 0x40 * 0x40 + c % 0x40
    ensures c / 0x40 == c / 0x1000 * 0x40 + c / 0x40 % 0x40
    ensures c / 0x1000 == c / 0x4_0000 * 0x40 + c / 0x1000 % 0x40
  {
  }

  lemma WellFormedIsEncode(s: seq<byte>)
    requires WellFormed(s)
    ensures 0 <= Value(s) < 0x11_0000 && !(0xD800 <= Value(s) < 0xE000)
    ensures Encode(Value(s)) == s
  {
    if |s| == 2 {
      Digits(0, 0, s[0] as int - 0xC0, s[1] as int - 0x80);
    } else if |s| == 3 {
      Digits(0, s[0] as int - 0xE0, s[1] as int - 0x80, s[2] as int - 0x80);
    } else if |s| == 4 {
      Digits(s[0] as int - 0xF0, s[1] as int - 0x80, s[2] as int - 0x80, s[3] as int - 0x80);
    }
  }

  lemma Digits(a: nat, b: nat, c: nat, d: nat)
    requires b < 0x40 && c < 0x40 && d < 0x40
    ensures var v := a * 0x4_0000 + b * 0x1000 + c * 0x40 + d;
            && v / 0x4_0000 == a && v / 0x1000 == a * 0x40 + b && v / 0x40 == a * 0x1000 + b * 0x40 + c
            && v / 0x1000 % 0x40 == b && v / 0x40 % 0x40 == c && v % 0x40 == d
  {
  }

  /** The grammar of section 4 describes exactly the sequences of section 3. */
  lemma GrammarIsEncoding(s: seq<byte>)
    ensures WellFormed(s) <==> exists c: Scalar :: Encode(c) == s
  {
    if WellFormed(s) {
      WellFormedIsEncode(s);
      var c: Scalar := Value(s);
      assert Encode(c) == s;
    }
    if c: Scalar :| Encode(c) == s {
      EncodeIsWellFormed(c);
    }
  }

  /** The length of the well-formed sequence that `s` starts with, or 0. */
  function LeadingLength(s: seq<byte>): (n: nat)
    ensures n <= |s| && n <= 4
    ensures n != 0 ==> WellFormed(s[..n])
    ensures n == 0 ==> forall k: nat :: k <= |s| ==> !WellFormed(s[..k])
  {
    if 1 <= |s| && WellFormed(s[..1]) then 1
    else if 2 <= |s| && WellFormed(s[..2]) then 2
    else if 3 <= |s| && WellFormed(s[..3]) then 3
    else if 4 <= |s| && WellFormed(s[..4]) then 4
    else 0
  }

  /** No well-formed sequence is a proper prefix of another. */
  lemma LeadingUnique(s: seq<byte>, n: nat)
    requires n <= |s| && WellFormed(s[..n])
    ensures LeadingLength(s) == n
  {
    var m := LeadingLength(s);
    assert s[..n][0] == s[0] && s[..m][0] == s[0];
  }

  /** The scalar values that bytes stand for, each byte that starts no well-formed sequence read as U+FFFD. */
  function Scalars(s: seq<byte>): seq<Scalar>
  {
    if s == [] then []
    else
      var n := LeadingLength(s);
      if n == 0 then [REPLACEMENT] + Scalars(s[1..])
      else
        WellFormedIsEncode(s[..n]);
        [Value(s[..n])] + Scalars(s[n..])
  }

  function EncodeAll(cs: seq<Scalar>): seq<byte>
  {
    if cs == [] then [] else Encode(cs[0]) + EncodeAll(cs[1..])
  }

  /** Well-formed text is read as what it encodes: nothing is replaced. */
  lemma {:induction false} ScalarsOfText(cs: seq<Scalar>)
    ensures Scalars(EncodeAll(cs)) == cs
  {
    if cs != [] {
      var s, n := EncodeAll(cs), |Encode(cs[0])|;
      EncodeIsWellFormed(cs[0]);
      assert s[..n] == Encode(cs[0]) && s[n..] == EncodeAll(cs[1..]);
      LeadingUnique(s, n);
      ScalarsOfText(cs[1..]);
    }
  }
}
