// What the fold is, told without a shift register: the remainder of dividing by
// the Castagnoli polynomial over GF(2); and the entries of the byte table and of
// the first matrix as they are printed.
module CrcRemainder {
  import opened Bits
  import opened Crc
  import opened CrcTables

  // x^d in the reflected form, where the coefficient of x^32 is the lowest bit.
  function Term(d: nat): nat
    requires d <= 32
  {
    Pow2(32 - d)
  }

  // The polynomial, by its terms as Appendix B of RFC 4960 lists them.
  function Castagnoli(): nat {
    Term(32) + Term(28) + Term(27) + Term(26) + Term(25) + Term(23) + Term(22) + Term(20) + Term(19) +
    Term(18) + Term(14) + Term(13) + Term(11) + Term(10) + Term(9) + Term(8) + Term(6) + Term(0)
  }

  // The register steps with just these terms, x^32 being the bit shifted out.
  lemma PolyIsCastagnoli()
    ensures Castagnoli() == 2 * POLY + 1
  {
    assert Pow2(0) == 1 && Pow2(4) == 0x10 && Pow2(5) == 0x20 && Pow2(6) == 0x40 && Pow2(7) == 0x80;
    assert Pow2(9) == 0x200 && Pow2(10) == 0x400 && Pow2(12) == 0x1000 && Pow2(13) == 0x2000 && Pow2(14) == 0x4000;
    assert Pow2(16) == 0x1_0000 && Pow2(18) == 0x4_0000 && Pow2(19) == 0x8_0000;
    assert Pow2(21) == 0x20_0000 && Pow2(22) == 0x40_0000 && Pow2(23) == 0x80_0000 && Pow2(24) == 0x100_0000;
    assert Pow2(26) == 0x400_0000 && Pow2(28) == 0x1000_0000 && Pow2(30) == 0x4000_0000;
    Pow2Facts();
  }

  // The product of polynomials over GF(2).
  function Times(q: nat, g: nat): nat
    decreases q
  {
    if q == 0 then 0 else Xor(if q % 2 == 1 then g else 0, 2 * Times(q / 2, g))
  }

  // One step of the register divides by x, adding the polynomial to an odd value.
  lemma StepDivides(v: nat)
    ensures Xor(2 * BitStep(v), if v % 2 == 1 then Castagnoli() else 0) == v
  {
    PolyIsCastagnoli();
    hide Castagnoli, Xor;
    if v % 2 == 1 {
      var sum := Xor(2 * BitStep(v), Castagnoli());
      XorStep(2 * BitStep(v), 2 * POLY + 1);
      XorCancel(v / 2, POLY);
      assert sum / 2 == v / 2 && sum % 2 == 1;
    } else {
      XorZero(2 * BitStep(v));
    }
  }

  lemma TimesStep(q: nat, g: nat)
    ensures Times(q, g) == Xor(if q % 2 == 1 then g else 0, 2 * Times(q / 2, g))
  {
    XorZero(0);
  }

  // A factor with one more, higher, bit.
  lemma {:induction false} TimesTop(k: nat, q: nat, bit: nat, g: nat)
    requires q < Pow2(k) && bit < 2
    ensures Times(q + bit * Pow2(k), g) == Xor(Times(q, g), Shl(k, if bit == 1 then g else 0))
    ensures q + bit * Pow2(k) < Pow2(k + 1)
    decreases k
  {
    hide Xor, Times;
    var top := if bit == 1 then g else 0;
    if k == 0 {
      TimesStep(0, g);
      TimesStep(bit, g);
      XorZero(top);
      XorZero(2 * Times(0, g));
    } else {
      var p := q + bit * Pow2(k);
      assert p / 2 == q / 2 + bit * Pow2(k - 1) && p % 2 == q % 2;
      TimesTop(k - 1, q / 2, bit, g);
      TimesStep(p, g);
      TimesStep(q, g);
      XorDouble(Times(q / 2, g), Shl(k - 1, top));
      XorAssoc(if q % 2 == 1 then g else 0, 2 * Times(q / 2, g), Shl(k, top));
    }
  }

  // k steps divide by x^k.
  lemma {:induction false} StepsDivide(k: nat, v: nat) returns (q: nat)
    ensures q < Pow2(k)
    ensures v == Xor(Shl(k, BitSteps(k, v)), Times(q, Castagnoli()))
  {
    hide Castagnoli, Xor, BitStep;
    if k == 0 {
      q := 0;
      XorZero(v);
    } else {
      q := StepsDivide(k - 1, v);
      var g, w := Castagnoli(), BitSteps(k - 1, v);
      var bit := w % 2;
      var odd := if bit == 1 then g else 0;
      StepDivides(w);
      TimesTop(k - 1, q, bit, g);
      ShlXor(k - 1, 2 * BitStep(w), odd);
      ShlTwice(k - 1, BitStep(w));
      XorComm(Times(q, g), Shl(k - 1, odd));
      XorAssoc(Shl(k, BitStep(w)), Shl(k - 1, odd), Times(q, g));
      q := q + bit * Pow2(k - 1);
    }
  }

  lemma {:induction false} ShlXor(k: nat, a: nat, b: nat)
    ensures Shl(k, Xor(a, b)) == Xor(Shl(k, a), Shl(k, b))
  {
    if k > 0 {
      ShlXor(k - 1, a, b);
      XorDouble(Shl(k - 1, a), Shl(k - 1, b));
    }
  }

  lemma {:induction false} ShlTwice(k: nat, a: nat)
    ensures Shl(k, 2 * a) == Shl(k + 1, a)
  {
    if k > 0 {
      ShlTwice(k - 1, a);
    }
  }

  // A multiple of the polynomial by a factor of k bits leaves nothing.
  lemma {:induction false} MultipleVanishes(k: nat, q: nat)
    requires q < Pow2(k)
    ensures BitSteps(k, Times(q, Castagnoli())) == 0
    decreases k
  {
    if k > 0 {
      assert q / 2 < Pow2(k - 1);
      MultipleVanishes(k - 1, q / 2);
      TimesLosesBit(q);
      hide Castagnoli, BitStep, Times, BitSteps;
      StepsShift(k - 1, Times(q, Castagnoli()));
    }
  }

  lemma TimesLosesBit(q: nat)
    ensures BitStep(Times(q, Castagnoli())) == Times(q / 2, Castagnoli())
  {
    hide Castagnoli, Xor, BitStep, Times;
    var g, t := Castagnoli(), Times(q / 2, Castagnoli());
    TimesStep(q, g);
    PolyVanishes();
    BitStepLinear(if q % 2 == 1 then g else 0, 2 * t);
    XorZero(t);
  }

  lemma PolyVanishes()
    ensures BitStep(Castagnoli()) == 0 && BitStep(0) == 0 && forall t: nat :: BitStep(2 * t) == t
  {
    PolyIsCastagnoli();
    hide Castagnoli, Xor;
    XorSelf(POLY);
  }

  // The first of the steps apart.
  lemma {:induction false} StepsShift(k: nat, v: nat)
    ensures BitSteps(k + 1, v) == BitSteps(k, BitStep(v))
  {
    if k > 0 {
      StepsShift(k - 1, v);
    }
  }

  // k steps of v leave r exactly when v is r times x^k, and a multiple of the
  // polynomial by a factor of k bits.
  lemma StepsAreRemainder(k: nat, v: nat, r: nat)
    ensures r == BitSteps(k, v) <==>
      exists q: nat :: q < Pow2(k) && v == Xor(Shl(k, r), Times(q, Castagnoli()))
  {
    hide Castagnoli;
    if r == BitSteps(k, v) {
      var q := StepsDivide(k, v);
    }
    forall q: nat | q < Pow2(k) && v == Xor(Shl(k, r), Times(q, Castagnoli()))
      ensures r == BitSteps(k, v)
    {
      BitStepsLinear(k, Shl(k, r), Times(q, Castagnoli()));
      BitStepsShl(k, r);
      MultipleVanishes(k, q);
      XorZero(r);
    }
  }

  lemma {:induction false} ZerosAreSteps(n: nat, v: nat)
    ensures Zeros(n, v) == BitSteps(BYTE_BITS * n, v)
  {
    if n > 0 {
      ZerosAreSteps(n - 1, v);
      StepsJoin(BYTE_BITS, BYTE_BITS * (n - 1), v);
    }
  }

  lemma {:induction false} StepsJoin(j: nat, k: nat, v: nat)
    ensures BitSteps(j + k, v) == BitSteps(j, BitSteps(k, v))
  {
    if j > 0 {
      StepsJoin(j - 1, k, v);
    }
  }

  // The checksum of data from start value v is the remainder: what is left of data
  // and v, as one polynomial, after division by Castagnoli's, and nothing else is.
  lemma FoldIsRemainder(v: nat, data: seq<byte>, r: nat)
    ensures r == Fold(v, data) <==>
      exists q: nat :: q < Pow2(BYTE_BITS * |data|) &&
        Xor(v, LittleEndian(data)) == Xor(Shl(BYTE_BITS * |data|, r), Times(q, Castagnoli()))
  {
    hide Castagnoli;
    var n := |data|;
    FoldIsZeros(v, data);
    ZerosAreSteps(n, Xor(v, LittleEndian(data)));
    StepsAreRemainder(BYTE_BITS * n, Xor(v, LittleEndian(data)), r);
  }

  // ----- The entries as printed -----

  // Row 0 of crc_turbo_table; its first eight entries are the entries 1, 2, 4, ..,
  // 128 of the byte table.
  const FIRST_ROW: seq<word> := [
    0xf26b8303, 0xe13b70f7, 0xc79a971f, 0x8ad958cf, 0x105ec76f, 0x20bd8ede, 0x417b1dbc, 0x82f63b78,
    0x00000001, 0x00000002, 0x00000004, 0x00000008, 0x00000010, 0x00000020, 0x00000040, 0x00000080,
    0x00000100, 0x00000200, 0x00000400, 0x00000800, 0x00001000, 0x00002000, 0x00004000, 0x00008000,
    0x00010000, 0x00020000, 0x00040000, 0x00080000, 0x00100000, 0x00200000, 0x00400000, 0x00800000
  ]

  // A number and one more byte.
  function Join(hi: nat, lo: nat): nat {
    256 * hi + lo
  }

  function Word(a: bv8, b: bv8, c: bv8, d: bv8): nat {
    Join(Join(Join(a as nat, b as nat), c as nat), d as nat)
  }

  lemma Halves(a: bv8)
    ensures a as nat == 2 * ((a >> 1) as nat) + (a & 1) as nat
  {
  }

  lemma BitsOfXor(a: bv8, b: bv8)
    ensures (a ^ b) >> 1 == (a >> 1) ^ (b >> 1)
    ensures ((a ^ b) & 1) as nat == if (a & 1) as nat == (b & 1) as nat then 0 else 1
    ensures a & 1 == 0 || a & 1 == 1
  {
  }

  lemma XorHalves(a: nat, h: nat, x: nat, b: nat, k: nat, y: nat, c: nat, l: nat, z: nat)
    requires a == 2 * h + x && b == 2 * k + y && c == 2 * l + z && x < 2 && y < 2
    requires Xor(h, k) == l && z == if x == y then 0 else 1
    ensures Xor(a, b) == c
  {
    XorStep(a, b);
    hide Xor;
    assert a / 2 == h && b / 2 == k;
  }

  // On bytes, exclusive or is that of bit vectors.
  lemma {:induction false} XorBits(a: bv8, b: bv8)
    ensures Xor(a as nat, b as nat) == (a ^ b) as nat
    decreases a as nat + b as nat
  {
    hide Xor;
    XorZero(0);
    if a != 0 || b != 0 {
      Halves(a);
      Halves(b);
      Smaller(a, b);
      XorBits(a >> 1, b >> 1);
      XorNext(a, b);
    }
  }

  lemma Smaller(a: bv8, b: bv8)
    requires a != 0 || b != 0
    ensures (a >> 1) as nat + (b >> 1) as nat < a as nat + b as nat
  {
  }

  lemma XorNext(a: bv8, b: bv8)
    requires Xor((a >> 1) as nat, (b >> 1) as nat) == ((a >> 1) ^ (b >> 1)) as nat
    ensures Xor(a as nat, b as nat) == (a ^ b) as nat
  {
    hide Xor;
    Halves(a);
    Halves(b);
    Halves(a ^ b);
    BitsOfXor(a, b);
    BitsOfXor(b, a);
    XorHalves(a as nat, (a >> 1) as nat, (a & 1) as nat, b as nat, (b >> 1) as nat, (b & 1) as nat,
      (a ^ b) as nat, ((a ^ b) >> 1) as nat, ((a ^ b) & 1) as nat);
  }

  lemma XorJoined(a: nat, b: bv8, a': nat, b': bv8)
    ensures Xor(Join(a, b as nat), Join(a', b' as nat)) == Join(Xor(a, a'), (b ^ b') as nat)
  {
    hide Xor;
    XorBits(b, b');
    XorSplit8(a, b as nat, a', b' as nat);
  }

  lemma XorWords(a: bv8, b: bv8, c: bv8, d: bv8, a': bv8, b': bv8, c': bv8, d': bv8)
    ensures Xor(Word(a, b, c, d), Word(a', b', c', d')) == Word(a ^ a', b ^ b', c ^ c', d ^ d')
  {
    hide Xor, Join;
    XorBits(a, a');
    XorJoined(a as nat, b, a' as nat, b');
    XorJoined(Join(a as nat, b as nat), c, Join(a' as nat, b' as nat), c');
    XorJoined(Join(Join(a as nat, b as nat), c as nat), d, Join(Join(a' as nat, b' as nat), c' as nat), d');
  }

  // The step of an odd value: half of it, and the polynomial added.
  lemma OddStep(a: bv8, b: bv8, c: bv8, d: bv8)
    ensures BitStep(2 * Word(a, b, c, d) + 1) == Word(a ^ 0x82, b ^ 0xF6, c ^ 0x3B, d ^ 0x78)
  {
    hide Xor;
    XorWords(a, b, c, d, 0x82, 0xF6, 0x3B, 0x78);
  }

  // From the polynomial on, each step gives the entry before.
  lemma PolySteps()
    ensures BitStep(1) == 0x82f63b78 && BitStep(0x82f63b78) == 0x417b1dbc && BitStep(0x417b1dbc) == 0x20bd8ede
    ensures BitStep(0x20bd8ede) == 0x105ec76f && BitStep(0x105ec76f) == 0x8ad958cf
    ensures BitStep(0x8ad958cf) == 0xc79a971f && BitStep(0xc79a971f) == 0xe13b70f7
    ensures BitStep(0xe13b70f7) == 0xf26b8303
  {
    OddStep(0x00, 0x00, 0x00, 0x00);
    OddStep(0x08, 0x2f, 0x63, 0xb7);
    OddStep(0x45, 0x6c, 0xac, 0x67);
    OddStep(0x63, 0xcd, 0x4b, 0x8f);
    OddStep(0x70, 0x9d, 0xb8, 0x7b);
  }

  lemma FromOne()
    ensures forall i :: 0 <= i < 8 ==> BitSteps(8 - i, 1) == FIRST_ROW[i]
  {
    PolySteps();
    hide BitStep;
    assert BitSteps(0, 1) == 1;
    assert BitSteps(1, 1) == FIRST_ROW[7];
    assert BitSteps(2, 1) == FIRST_ROW[6];
    assert BitSteps(3, 1) == FIRST_ROW[5];
    assert BitSteps(4, 1) == FIRST_ROW[4];
    assert BitSteps(5, 1) == FIRST_ROW[3];
    assert BitSteps(6, 1) == FIRST_ROW[2];
    assert BitSteps(7, 1) == FIRST_ROW[1];
    assert BitSteps(8, 1) == FIRST_ROW[0];
  }

  // The images of the low unit vectors, which the polynomial reaches.
  lemma LowColumn(i: nat)
    requires i < 8
    ensures ByteStep(Pow2(i)) == FIRST_ROW[i]
  {
    hide BitSteps;
    FromOne();
    ShlTimes(i, 1);
    BitStepsShl(i, 1);
    StepsJoin(8 - i, i, Pow2(i));
  }

  // The others are shifted only.
  lemma {:induction false} HighColumn(i: nat)
    requires 8 <= i < 32
    ensures FIRST_ROW[i] == Pow2(i - 8) && ByteStep(Pow2(i)) == FIRST_ROW[i]
  {
    hide BitSteps;
    Pow2Eight(i - 8);
    ByteStepShl(Pow2(i - 8));
    if i > 8 {
      HighColumn(i - 1);
    }
  }

  lemma {:induction false} Pow2Eight(k: nat)
    ensures Pow2(k + 8) == 256 * Pow2(k)
  {
    if k == 0 {
      Pow2Facts();
    } else {
      Pow2Eight(k - 1);
    }
  }

  // Row 0 is as printed.
  lemma FirstRowPrinted()
    ensures TurboRow(0) == FIRST_ROW
  {
    forall i | 0 <= i < 32
      ensures TurboRow(0)[i] == FIRST_ROW[i]
    {
      if i < 8 {
        LowColumn(i);
      } else {
        HighColumn(i);
      }
    }
  }

  // Every entry of the byte table comes from the printed ones: those of the set bits
  // of its index, added.
  lemma TablePrinted(b: byte)
    ensures SliceTable(0)[b] == Product(FIRST_ROW, b) == Fold(0, [b])
  {
    FirstRowPrinted();
    TurboRowIsZeroRun(0);
    ProductIsZeros(FIRST_ROW, 1, b);
    SliceEntry(0, b);
    FoldIsZeros(0, [b]);
    XorZero(b);
    assert LittleEndian([b]) == b;
  }

  // The checksums of single bits.
  lemma OneBit(i: nat)
    requires i < 8
    ensures Pow2(i) < 256 && Fold(0, [Pow2(i)]) == FIRST_ROW[i]
  {
    assert Pow2(4) == 16 && Pow2(7) == 128;
    Pow2Mono(i, 7);
    LowColumn(i);
    FoldIsZeros(0, [Pow2(i)]);
    XorZero(Pow2(i));
    assert LittleEndian([Pow2(i)]) == Pow2(i);
    assert Zeros(0, Pow2(i)) == Pow2(i);
  }
}
