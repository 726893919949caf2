/**
 * The CRC of Crc32.dfy as division over GF(2). A polynomial is the set of the exponents it has; the sum is the
 * symmetric difference. A register and a byte stand for polynomials with their lowest bit first.
 */
module Crc32Division {
  import opened Bytes
  import opened Crc32

  type Poly = set<int>

  /** The generator polynomial of CRC-32. */
  const GENERATOR: Poly := {32, 26, 23, 22, 16, 12, 11, 10, 8, 7, 5, 4, 2, 1, 0}

  function Plus(a: Poly, b: Poly): Poly { (a - b) + (b - a) }

  /** The product with x^k. */
  function Times(a: Poly, k: int): Poly { set i | i in a :: i + k }

  /** The lowest bit of `n` stands for x^top, the next one for x^(top - 1), and so on. */
  function Reflected(n: nat, top: int): Poly
  {
    if n == 0 then {} else (if n % 2 == 1 then {top} else {}) + Reflected(n / 2, top - 1)
  }

  function OfRegister(crc: u32): Poly { Reflected(crc, 31) }

  function OfByte(b: byte): Poly { Reflected(b, 7) }

  /** The message, its first bit the leading one. */
  function Message(data: seq<byte>): Poly
  {
    if data == [] then {}
    else Plus(Times(Message(data[..|data| - 1]), 8), OfByte(data[|data| - 1]))
  }

  /** The generator times the quotient with these coefficients, the leading one first. */
  function Multiple(quotient: seq<bool>): Poly
  {
    if quotient == [] then {}
    else Plus(Times(Multiple(quotient[..|quotient| - 1]), 1), if quotient[|quotient| - 1] then GENERATOR else {})
  }

  // ----- sums and shifts -------------------------------------------------------------------------

  lemma TimesHas(a: Poly, k: int, i: int)
    ensures i in Times(a, k) <==> i - k in a
  {
    if i - k in a {
      assert (i - k) + k in Times(a, k);
    }
  }

  lemma TimesOne(a: Poly)
    ensures Times(a, 0) == a
  {
    forall i
      ensures i in Times(a, 0) <==> i in a
    {
      TimesHas(a, 0, i);
    }
  }

  lemma TimesPlus(a: Poly, b: Poly, k: int)
    ensures Times(Plus(a, b), k) == Plus(Times(a, k), Times(b, k))
  {
    forall i
      ensures i in Times(Plus(a, b), k) <==> i in Plus(Times(a, k), Times(b, k))
    {
      TimesHas(Plus(a, b), k, i);
      TimesHas(a, k, i);
      TimesHas(b, k, i);
    }
  }

  lemma TimesTimes(a: Poly, k: int, l: int)
    ensures Times(Times(a, k), l) == Times(a, k + l)
  {
    forall i
      ensures i in Times(Times(a, k), l) <==> i in Times(a, k + l)
    {
      TimesHas(Times(a, k), l, i);
      TimesHas(a, k, i - l);
      TimesHas(a, k + l, i);
    }
  }

  lemma PlusAssociates(a: Poly, b: Poly, c: Poly)
    ensures Plus(Plus(a, b), c) == Plus(a, Plus(b, c))
    ensures Plus(a, b) == Plus(b, a)
  {
    assert forall i :: i in Plus(Plus(a, b), c) <==> i in Plus(a, Plus(b, c));
  }

  // ----- registers -------------------------------------------------------------------------------

  lemma {:induction false} ReflectedBelow(n: nat, top: int)
    ensures forall i :: i in Reflected(n, top) ==> i <= top
  {
    if n > 0 {
      ReflectedBelow(n / 2, top - 1);
    }
  }

  lemma {:induction false} ReflectedAbove(n: nat, top: int, width: nat)
    requires n < Pow2(width)
    ensures forall i :: i in Reflected(n, top) ==> i > top - width
  {
    if n > 0 {
      ReflectedAbove(n / 2, top - 1, width - 1);
    }
  }

  lemma {:induction false} ReflectedXor(a: nat, b: nat, top: int)
    ensures Reflected(Xor(a, b), top) == Plus(Reflected(a, top), Reflected(b, top))
    decreases a + b
  {
    if a != 0 || b != 0 {
      ReflectedXor(a / 2, b / 2, top - 1);
      ReflectedBelow(a / 2, top - 1);
      ReflectedBelow(b / 2, top - 1);
      Unfold(a, top);
      Unfold(b, top);
      Unfold(Xor(a, b), top);
    }
  }

  lemma Unfold(n: nat, top: int)
    ensures Reflected(n, top) == (if n % 2 == 1 then {top} else {}) + Reflected(n / 2, top - 1)
  {
  }

  lemma {:induction false} ReflectedTimes(n: nat, top: int, k: int)
    ensures Times(Reflected(n, top), k) == Reflected(n, top + k)
  {
    if n > 0 {
      ReflectedTimes(n / 2, top - 1, k);
      forall i
        ensures i in Times(Reflected(n, top), k) <==> i in Reflected(n, top + k)
      {
        TimesHas(Reflected(n, top), k, i);
        TimesHas(Reflected(n / 2, top - 1), k, i);
      }
    }
  }

  lemma UnfoldFour(n: nat, top: int)
    ensures Reflected(n, top) ==
              (if n % 2 == 1 then {top} else {}) + (if n / 2 % 2 == 1 then {top - 1} else {})
              + (if n / 4 % 2 == 1 then {top - 2} else {}) + (if n / 8 % 2 == 1 then {top - 3} else {})
              + Reflected(n / 16, top - 4)
  {
    Unfold(n, top);
    Unfold(n / 2, top - 1);
    Unfold(n / 2 / 2, top - 2);
    Unfold(n / 2 / 2 / 2, top - 3);
    assert n / 2 / 2 == n / 4 && n / 2 / 2 / 2 == n / 8 && n / 2 / 2 / 2 / 2 == n / 16;
  }

  /** The constant of the source is the generator without its leading term, lowest bit first. */
  lemma PolynomialIsGenerator()
    ensures Plus({32}, OfRegister(POLYNOMIAL)) == GENERATOR
  {
    LowHalf(POLYNOMIAL);
    Middle(0xEDB8);
    HighByte(0xED);
  }

  lemma LowHalf(n: nat)
    requires n == 0xEDB8_8320
    ensures Reflected(n, 31) == {26, 23, 22, 16} + Reflected(0xEDB8, 15)
  {
    hide Reflected;
    UnfoldFour(n, 31);
    UnfoldFour(0xEDB_8832, 27);
    UnfoldFour(0xED_B883, 23);
    UnfoldFour(0xE_DB88, 19);
  }

  lemma Middle(n: nat)
    requires n == 0xEDB8
    ensures Reflected(n, 15) == {12, 11, 10, 8} + Reflected(0xED, 7)
  {
    hide Reflected;
    UnfoldFour(n, 15);
    UnfoldFour(0xEDB, 11);
  }

  lemma HighByte(n: nat)
    requires n == 0xED
    ensures Reflected(n, 7) == {7, 5, 4, 2, 1, 0}
  {
    NothingReflected(-1);
    hide Reflected;
    UnfoldFour(n, 7);
    UnfoldFour(0xE, 3);
  }

  lemma NothingReflected(top: int)
    ensures Reflected(0, top) == {}
  {
  }

  /** One turn of the inner loop multiplies by x and reduces. */
  lemma BitStepReduces(crc: u32)
    ensures OfRegister(BitStep(crc)) == Plus(Times(OfRegister(crc), 1), if crc % 2 == 1 then GENERATOR else {})
  {
    Unfold(crc, 31);
    Pow2Values();
    ReflectedTimes(crc, 31, 1);
    Unfold(crc, 32);
    ReflectedBelow(crc / 2, 31);
    if crc % 2 == 1 {
      PolynomialIsGenerator();
      ReflectedXor(crc / 2, POLYNOMIAL, 31);
      ReflectedBelow(POLYNOMIAL, 31);
    }
  }

  /** Eight turns multiply by x^8 and subtract a multiple of the generator. */
  lemma {:induction false} BitStepsReduce(crc: u32, n: nat) returns (quotient: seq<bool>)
    ensures |quotient| == n
    ensures OfRegister(BitSteps(crc, n)) == Plus(Times(OfRegister(crc), n), Multiple(quotient))
  {
    if n == 0 {
      quotient := [];
      TimesOne(OfRegister(crc));
    } else {
      var front := BitStepsReduce(crc, n - 1);
      var before := BitSteps(crc, n - 1);
      BitStepReduces(before);
      quotient := front + [before % 2 == 1];
      assert quotient[..n - 1] == front;
      TimesPlus(Times(OfRegister(crc), n - 1), Multiple(front), 1);
      TimesTimes(OfRegister(crc), n - 1, 1);
      PlusAssociates(Times(OfRegister(crc), n), Times(Multiple(front), 1), if before % 2 == 1 then GENERATOR else {});
    }
  }

  /** One turn of the outer loop: x^8 times the register, plus x^32 times the byte, less a multiple. */
  lemma ByteStepReduces(crc: u32, b: byte) returns (quotient: seq<bool>)
    ensures |quotient| == 8
    ensures OfRegister(ByteStep(crc, b)) ==
              Plus(Plus(Times(OfRegister(crc), 8), Times(OfByte(b), 32)), Multiple(quotient))
  {
    Pow2Values();
    XorBounded(crc, b, 32);
    quotient := BitStepsReduce(Xor(crc, b), 8);
    ReflectedXor(crc, b, 31);
    TimesPlus(OfRegister(crc), OfRegister(b), 8);
    ReflectedTimes(b, 7, 24);
    TimesTimes(OfByte(b), 24, 8);
  }

  lemma {:induction false} MultipleAppend(a: seq<bool>, b: seq<bool>)
    ensures Multiple(a + b) == Plus(Times(Multiple(a), |b|), Multiple(b))
  {
    if b == [] {
      TimesOne(Multiple(a));
      assert a + b == a;
    } else {
      var front, last := b[..|b| - 1], b[|b| - 1];
      MultipleAppend(a, front);
      assert (a + b)[..|a + b| - 1] == a + front && (a + b)[|a + b| - 1] == last;
      TimesPlus(Times(Multiple(a), |front|), Multiple(front), 1);
      TimesTimes(Multiple(a), |front|, 1);
      PlusAssociates(Times(Multiple(a), |b|), Times(Multiple(front), 1), if last then GENERATOR else {});
    }
  }

  /** The register after the data: x^(8n) times the start plus x^32 times the message, less a multiple. */
  lemma {:induction false} RunReduces(crc: u32, data: seq<byte>) returns (quotient: seq<bool>)
    ensures |quotient| == 8 * |data|
    ensures OfRegister(Run(crc, data)) ==
              Plus(Plus(Times(OfRegister(crc), 8 * |data|), Times(Message(data), 32)), Multiple(quotient))
  {
    if data == [] {
      quotient := [];
      TimesOne(OfRegister(crc));
      assert Times({}, 32) == {};
    } else {
      var front, last := data[..|data| - 1], data[|data| - 1];
      var first := RunReduces(crc, front);
      var second := ByteStepReduces(Run(crc, front), last);
      quotient := first + second;
      MultipleAppend(first, second);
      var start, message := Times(OfRegister(crc), 8 * |front|), Times(Message(front), 32);
      TimesPlus(Plus(start, message), Multiple(first), 8);
      TimesPlus(start, message, 8);
      TimesTimes(OfRegister(crc), 8 * |front|, 8);
      TimesTimes(Message(front), 32, 8);
      TimesPlus(Times(Message(front), 8), OfByte(last), 32);
      TimesTimes(Message(front), 8, 32);
      SixTerms(Times(start, 8), Times(message, 8), Times(Multiple(first), 8), Times(OfByte(last), 32), Multiple(second));
      hide Reflected, Message, Multiple, Times, Run, ByteStep;
    }
  }

  lemma SixTerms(a: Poly, b: Poly, c: Poly, d: Poly, e: Poly)
    ensures Plus(Plus(Plus(Plus(a, b), c), d), e) == Plus(Plus(a, Plus(b, d)), Plus(c, e))
  {
    assert forall i :: i in Plus(Plus(Plus(Plus(a, b), c), d), e) <==> i in Plus(Plus(a, Plus(b, d)), Plus(c, e));
  }

  /**
   * The checksum is the remainder of a division. The data followed by 32 zero bits, with the first 32 bits inverted, is
   * a multiple of the generator plus a remainder of degree below 32, which is the complement of the checksum.
   */
  lemma ChecksumIsRemainder(data: seq<byte>) returns (quotient: seq<bool>, remainder: Poly)
    ensures Plus(Times(Message(data), 32), Times(OfRegister(0xFFFF_FFFF), 8 * |data|)) == Plus(Multiple(quotient), remainder)
    ensures |quotient| == 8 * |data| && forall i :: i in remainder ==> 0 <= i < 32
    ensures remainder == OfRegister(0xFFFF_FFFF - Checksum(data))
  {
    quotient := RunReduces(ALL_ONES, data);
    var r := Run(ALL_ONES, data);
    remainder := OfRegister(r);
    Pow2Values();
    ReflectedBelow(r, 31);
    ReflectedAbove(r, 31, 32);
    hide Reflected, Message, Multiple, Times;
    FourTerms(Times(OfRegister(ALL_ONES), 8 * |data|), Times(Message(data), 32), Multiple(quotient));
  }

  lemma FourTerms(a: Poly, b: Poly, c: Poly)
    ensures Plus(c, Plus(Plus(a, b), c)) == Plus(b, a)
  {
    assert forall i :: i in Plus(c, Plus(Plus(a, b), c)) <==> i in Plus(b, a);
  }

  // ----- there is only one remainder -------------------------------------------------------------

  /** A multiple that is not zero has a term that no remainder can have. */
  lemma {:induction false} MultipleHasTop(quotient: seq<bool>) returns (top: int)
    ensures true !in quotient ==> Multiple(quotient) == {}
    ensures true in quotient ==> top >= 32 && top in Multiple(quotient)
    ensures true in quotient ==> forall i :: i in Multiple(quotient) ==> i <= top
  {
    top := 0;
    if quotient != [] {
      var front, last := quotient[..|quotient| - 1], quotient[|quotient| - 1];
      assert quotient == front + [last];
      var below := MultipleHasTop(front);
      top := if true in front then below + 1 else 32;
      TopStep(Multiple(front), if last then GENERATOR else {}, true in front, below);
      hide Multiple, Times;
    }
  }

  lemma TopStep(m: Poly, g: Poly, some: bool, below: int)
    requires if some then below >= 32 && below in m && forall i :: i in m ==> i <= below else m == {}
    requires g == {} || g == GENERATOR
    ensures var p := Plus(Times(m, 1), g);
            if some then below + 1 in p && forall i :: i in p ==> i <= below + 1
            else p == g && (g != {} ==> 32 in p && forall i :: i in p ==> i <= 32)
  {
    TimesHas(m, 1, below + 1);
    forall i | i in Times(m, 1)
      ensures i - 1 in m
    {
      TimesHas(m, 1, i);
    }
  }

  function Differences(a: seq<bool>, b: seq<bool>): (c: seq<bool>)
    requires |a| == |b|
    ensures |c| == |a|
  {
    seq(|a|, i requires 0 <= i < |a| => a[i] != b[i])
  }

  lemma {:induction false} MultiplesAdd(a: seq<bool>, b: seq<bool>)
    requires |a| == |b|
    ensures Multiple(Differences(a, b)) == Plus(Multiple(a), Multiple(b))
  {
    if a != [] {
      var n := |a| - 1;
      MultiplesAdd(a[..n], b[..n]);
      assert Differences(a, b)[..n] == Differences(a[..n], b[..n]);
      TimesPlus(Multiple(a[..n]), Multiple(b[..n]), 1);
      var x, y := Times(Multiple(a[..n]), 1), Times(Multiple(b[..n]), 1);
      var g, h := (if a[n] then GENERATOR else {}), (if b[n] then GENERATOR else {});
      PairsAdd(x, y, g, h);
      assert Plus(g, h) == if a[n] != b[n] then GENERATOR else {};
      hide Multiple, Times, Plus;
    }
  }

  lemma PairsAdd(x: Poly, y: Poly, g: Poly, h: Poly)
    ensures Plus(Plus(x, y), Plus(g, h)) == Plus(Plus(x, g), Plus(y, h))
  {
    assert forall i :: i in Plus(Plus(x, y), Plus(g, h)) <==> i in Plus(Plus(x, g), Plus(y, h));
  }

  /** Two divisions of the same polynomial, with quotients of the same length, leave the same remainder. */
  lemma RemainderIsUnique(a: seq<bool>, r: Poly, b: seq<bool>, s: Poly)
    requires |a| == |b| && Plus(Multiple(a), r) == Plus(Multiple(b), s)
    requires forall i :: i in r || i in s ==> i < 32
    ensures r == s
  {
    MultiplesAdd(a, b);
    var top := MultipleHasTop(Differences(a, b));
    assert Plus(Multiple(a), Multiple(b)) == Plus(r, s) by {
      assert forall i :: i in Plus(Multiple(a), r) <==> i in Plus(Multiple(b), s);
    }
    hide Multiple;
    assert top >= 32 ==> top !in Plus(r, s);
    assert Plus(r, s) == {};
  }
}
