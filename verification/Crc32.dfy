/** The bitwise reflected CRC-32 of src/config/AtomicConfigStore.cpp, on 32-bit naturals. */
module Crc32 {
  import opened Bytes

  const POLYNOMIAL: u32 := 0xEDB88320
  const ALL_ONES: u32 := 0xFFFF_FFFF
  const HALF: nat := 0x8000_0000

  /** Exclusive or, one binary digit at a time. */
  function Xor(a: nat, b: nat): nat
    decreases a + b
  {
    if a == 0 && b == 0 then 0
    else (if a % 2 == b % 2 then 0 else 1) + 2 * Xor(a / 2, b / 2)
  }

  function Pow2(n: nat): nat
  {
    if n == 0 then 1 else 2 * Pow2(n - 1)
  }

  lemma Pow2Values()
    ensures Pow2(8) == 256 && Pow2(31) == HALF && Pow2(32) == U32_LIMIT
  {
    assert Pow2(8) == 256;
    assert Pow2(16) == 256 * Pow2(8);
    assert Pow2(24) == 256 * Pow2(16);
    assert Pow2(31) == 128 * Pow2(24);
  }

  lemma {:induction false} XorBounded(a: nat, b: nat, n: nat)
    requires a < Pow2(n) && b < Pow2(n)
    ensures Xor(a, b) < Pow2(n)
  {
    if n > 0 && (a != 0 || b != 0) {
      XorBounded(a / 2, b / 2, n - 1);
    }
  }

  lemma {:induction false} XorCancels(a: nat, b: nat)
    ensures Xor(Xor(a, b), b) == a
    decreases a + b
  {
    if a != 0 || b != 0 {
      XorCancels(a / 2, b / 2);
      assert Xor(a, b) / 2 == Xor(a / 2, b / 2);
    }
  }

  lemma {:induction false} XorCommutes(a: nat, b: nat)
    ensures Xor(a, b) == Xor(b, a)
    decreases a + b
  {
    if a != 0 || b != 0 {
      XorCommutes(a / 2, b / 2);
    }
  }

  /** Xor with a number whose top bit is bit n sets bit n of anything smaller. */
  lemma {:induction false} XorSetsTop(a: nat, b: nat, n: nat)
    requires a < Pow2(n) && Pow2(n) <= b < Pow2(n + 1)
    ensures Pow2(n) <= Xor(a, b)
  {
    if n > 0 {
      XorSetsTop(a / 2, b / 2, n - 1);
    } else {
      assert Pow2(1) == 2 * Pow2(0);
    }
  }

  /** ... and clears it from anything that has it. */
  lemma {:induction false} XorClearsTop(a: nat, b: nat, n: nat)
    requires Pow2(n) <= a < Pow2(n + 1) && Pow2(n) <= b < Pow2(n + 1)
    ensures Xor(a, b) < Pow2(n)
  {
    if n > 0 {
      XorClearsTop(a / 2, b / 2, n - 1);
    } else {
      assert Pow2(1) == 2 * Pow2(0);
      assert Xor(1, 1) == 0 + 2 * Xor(0, 0);
    }
  }

  /** One turn of the inner loop: the mask is all ones exactly when the low bit is set. */
  function BitStep(crc: u32): (r: u32)
  {
    if crc % 2 == 1 then
      Pow2Values();
      XorBounded(crc / 2, POLYNOMIAL, 32);
      Xor(crc / 2, POLYNOMIAL)
    else
      crc / 2
  }

  function BitUnstep(crc: u32): (r: u32)
  {
    if crc >= HALF then
      Pow2Values();
      XorClearsTop(crc, POLYNOMIAL, 31);
      2 * Xor(crc, POLYNOMIAL) + 1
    else
      2 * crc
  }

  /** One bit step is a bijection on 32-bit states: BitUnstep undoes it on both sides. */
  lemma BitStepBijective(crc: u32)
    ensures BitUnstep(BitStep(crc)) == crc
    ensures BitStep(BitUnstep(crc)) == crc
  {
    StepUndone(crc);
    UnstepUndone(crc);
  }

  lemma StepUndone(crc: u32)
    ensures BitUnstep(BitStep(crc)) == crc
  {
    hide Xor, Pow2;
    Pow2Values();
    if crc % 2 == 1 {
      XorCancels(crc / 2, POLYNOMIAL);
      XorSetsTop(crc / 2, POLYNOMIAL, 31);
    }
  }

  lemma UnstepUndone(crc: u32)
    ensures BitStep(BitUnstep(crc)) == crc
  {
    hide Xor, Pow2;
    Pow2Values();
    if crc >= HALF {
      XorCancels(crc, POLYNOMIAL);
    }
  }

  function BitSteps(crc: u32, n: nat): (r: u32)
  {
    if n == 0 then crc else BitStep(BitSteps(crc, n - 1))
  }

  function BitUnsteps(crc: u32, n: nat): (r: u32)
    decreases n
  {
    if n == 0 then crc else BitUnsteps(BitUnstep(crc), n - 1)
  }

  lemma {:induction false} BitStepsBijective(crc: u32, n: nat)
    ensures BitUnsteps(BitSteps(crc, n), n) == crc
    ensures BitSteps(BitUnsteps(crc, n), n) == crc
    decreases n
  {
    if n > 0 {
      BitStepBijective(BitSteps(crc, n - 1));
      BitStepsBijective(crc, n - 1);
      BitStepsBijective(BitUnstep(crc), n - 1);
      BitStepBijective(crc);
    }
  }

  /** One turn of the outer loop. */
  function ByteStep(crc: u32, b: byte): (r: u32)
  {
    Pow2Values();
    XorBounded(crc, b, 32);
    BitSteps(Xor(crc, b), 8)
  }

  function ByteUnstep(crc: u32, b: byte): (r: u32)
  {
    Pow2Values();
    XorBounded(BitUnsteps(crc, 8), b, 32);
    Xor(BitUnsteps(crc, 8), b)
  }

  /** For a fixed byte, one byte step is a bijection on the 32-bit state. */
  lemma ByteStepBijective(crc: u32, b: byte)
    ensures ByteUnstep(ByteStep(crc, b), b) == crc
    ensures ByteStep(ByteUnstep(crc, b), b) == crc
  {
    Pow2Values();
    XorBounded(crc, b, 32);
    BitStepsBijective(Xor(crc, b), 8);
    XorCancels(crc, b);
    BitStepsBijective(crc, 8);
    XorCancels(BitUnsteps(crc, 8), b);
  }

  /** For a fixed state, different bytes lead to different states. */
  lemma ByteStepSeparates(crc: u32, b: byte, c: byte)
    requires b != c
    ensures ByteStep(crc, b) != ByteStep(crc, c)
  {
    Pow2Values();
    XorBounded(crc, b, 32);
    XorBounded(crc, c, 32);
    BitStepsBijective(Xor(crc, b), 8);
    BitStepsBijective(Xor(crc, c), 8);
    XorCommutes(crc, b);
    XorCommutes(crc, c);
    XorCancels(b, crc);
    XorCancels(c, crc);
  }

  function Run(crc: u32, data: seq<byte>): (r: u32)
  {
    if data == [] then crc
    else ByteStep(Run(crc, data[..|data| - 1]), data[|data| - 1])
  }

  function Checksum(data: seq<byte>): (r: u32)
  {
    ALL_ONES - Run(ALL_ONES, data)
  }

  /** The checksum sees every change of a single byte, wherever it is. */
  lemma {:induction false} RunDetectsChange(crc: u32, data: seq<byte>, i: nat, b: byte)
    requires i < |data| && b != data[i]
    ensures Run(crc, data[i := b]) != Run(crc, data)
  {
    var last := |data| - 1;
    if i == last {
      assert data[i := b][..last] == data[..last];
      ByteStepSeparates(Run(crc, data[..last]), b, data[last]);
    } else {
      assert data[i := b][..last] == data[..last][i := b];
      RunDetectsChange(crc, data[..last], i, b);
      ByteStepBijective(Run(crc, data[..last][i := b]), data[last]);
      ByteStepBijective(Run(crc, data[..last]), data[last]);
    }
  }

  lemma ChecksumDetectsChange(data: seq<byte>, i: nat, b: byte)
    requires i < |data| && b != data[i]
    ensures Checksum(data[i := b]) != Checksum(data)
  {
    RunDetectsChange(ALL_ONES, data, i, b);
  }

  method Compute(data: seq<byte>) returns (r: u32)
    ensures r == Checksum(data)
  {
    var crc: u32 := ALL_ONES;
    for index := 0 to |data|
      invariant crc == Run(ALL_ONES, data[..index])
    {
      ghost var before := crc;
      Pow2Values();
      XorBounded(crc, data[index], 32);
      crc := Xor(crc, data[index]);
      ghost var mixed := crc;
      for bit := 0 to 8
        invariant crc == BitSteps(mixed, bit)
      {
        var mask := if crc % 2 == 1 then POLYNOMIAL else 0;
        XorBounded(crc / 2, mask, 32);
        MaskedXor(crc / 2);
        crc := Xor(crc / 2, mask);
      }
      assert data[..index + 1][..index] == data[..index];
    }
    assert data[..|data|] == data;
    r := ALL_ONES - crc;
  }

  lemma {:induction false} MaskedXor(a: nat)
    ensures Xor(a, 0) == a
  {
    if a != 0 {
      MaskedXor(a / 2);
    }
  }
}
