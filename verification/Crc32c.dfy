// The entry points: crc32c_zeros, which multiplies by precomputed matrices, and
// spec_crc32c, which chooses the routine.
module Crc32c {
  import opened Bits
  import opened Crc
  import opened CrcTables
  import opened CrcSoftware
  import opened CrcKernel

  // The routine that choose_crc32 selects once for the CPU.
  datatype Impl = Intel | Portable

  const UINT_LIMIT: nat := 0x1_0000_0000

  // ~((x & 1) - 1) in 32 bits: all ones for an odd x, else zero.
  function Mask(x: word): word {
    (UINT_LIMIT - 1) - (x % 2 + UINT_LIMIT - 1) % UINT_LIMIT
  }

  // The inner loop of crc32c_zeros: the product of a row of the table, which has
  // 32 rows, with crc.
  method MatrixStep(range: nat, crcIn: word) returns (crc1: word)
    requires range < 32
    ensures crc1 == Product(TurboRow(range), crcIn)
  {
    hide Xor, TurboRow;
    var row := TurboRow(range);
    var crc: nat := crcIn;
    var ptr: nat := 0;
    crc1 := 0;
    Pow2Facts();
    XorZero(Apply(row, 0, crcIn));
    while crc != 0
      invariant ptr <= 32 && crc < Pow2(32 - ptr) && crc < UINT_LIMIT
      invariant Xor(crc1, Apply(row, ptr, crc)) == Product(row, crcIn)
    {
      assert crc % 2 == 0 ==> Mask(crc) == 0;
      assert crc % 2 == 1 ==> Mask(crc) == Pow2(32) - 1;
      AndOnes(32, row[ptr]);
      var term := And(Mask(crc), row[ptr]);
      assert term == if crc % 2 == 1 then row[ptr] else 0;
      XorAssoc(crc1, term, Apply(row, ptr + 1, crc / 2));
      XorWord(crc1, term);
      crc1 := Xor(crc1, term);
      crc := crc / 2;
      ptr := ptr + 1;
    }
    XorZero(crc1);
  }

  // The state of the digit loop: len * 2^range zero bytes are still due.
  ghost function Due(len: nat, range: nat, crc: nat): nat {
    Zeros(len * Pow2(range), crc)
  }

  lemma DueStep(len: nat, range: nat, crc: nat)
    ensures Due(len, range, crc) ==
            Due(len / 2, range + 1, if len % 2 == 1 then Zeros(Pow2(range), crc) else crc)
  {
    hide Zeros;
    var p, h := Pow2(range), len / 2;
    if len % 2 == 1 {
      assert len * p == h * (2 * p) + p;
      ZerosAdd(h * (2 * p), p, crc);
    } else {
      assert len * p == h * (2 * p);
    }
  }

  lemma DigitBounds(len: nat, range: nat)
    requires 4 <= range <= 32 && 0 < len < Pow2(32 - range)
    ensures range < 32 && len / 2 < Pow2(32 - (range + 1))
  {
  }

  lemma DueFacts(length: nat, crc: nat)
    requires length < UINT_LIMIT
    ensures length / 16 < Pow2(28)
    ensures Due(length / 16, 4, crc) == Zeros(length / 16 * 16, crc)
    ensures forall range :: Due(0, range, crc) == crc
  {
    hide Zeros;
    assert Pow2(4) == 16;
    assert Pow2(28) == 0x1000_0000 by {
      assert Pow2(8) == 0x100;
      assert Pow2(12) == 0x1000;
      assert Pow2(16) == 0x1_0000;
      assert Pow2(20) == 0x10_0000;
      assert Pow2(24) == 0x100_0000;
    }
    forall range
      ensures Due(0, range, crc) == crc
    {
      ZerosNone(crc);
      assert 0 * Pow2(range) == 0;
    }
  }

  method Crc32cZeros(impl: Impl, crcInitial: word, length: nat) returns (crc: word)
    requires length < UINT_LIMIT
    ensures crc == Zeros(length, crcInitial)
    decreases length, 1
  {
    hide Zeros, Xor, TurboRow, Product, Due, Pow2;
    var remainder := length % 16;
    var len := length / 16;
    var range: nat := 4;
    crc := crcInitial;
    DueFacts(length, crcInitial);
    while len != 0
      invariant 4 <= range <= 32
      invariant 0 <= len < Pow2(32 - range)
      invariant Due(len, range, crc) == Zeros(length / 16 * 16, crcInitial)
    {
      DigitBounds(len, range);
      DueStep(len, range, crc);
      if len % 2 == 1 {
        TurboRowIsZeroRun(range);
        ProductIsZeros(TurboRow(range), Pow2(range), crc);
        crc := MatrixStep(range, crc);
      }
      len := len / 2;
      range := range + 1;
    }
    DueFacts(0, crc);
    assert Due(0, range, crc) == crc;
    ZerosAdd(remainder, length / 16 * 16, crcInitial);
    ZerosNone(crc);
    if remainder > 0 {
      FoldZeroBytes(crc, remainder);
      crc := SpecCrc32c(impl, crc, Null, remainder);
    }
  }

  lemma ZerosNone(crc: nat)
    ensures Zeros(0, crc) == crc
  {
  }

  // spec_crc32c
  method SpecCrc32c(impl: Impl, crcIn: word, data: Buffer, length: nat) returns (crc: word)
    requires Readable(data, length) && length < UINT_LIMIT
    ensures crc == Fold(crcIn, Input(data, length))
    decreases length, if data.Null? && length > 16 then 2 else 0
  {
    if data.Null? && length > 16 {
      FoldZeroBytes(crcIn, length);
      crc := Crc32cZeros(impl, crcIn, length);
    } else {
      match impl
      case Intel => crc := IntelFast(crcIn, data, length);
      case Portable => crc := Sctp(crcIn, data, length);
    }
  }

  // Callers with a longer buffer have its length narrowed to 32 bits: the checksum
  // of what is left is that of the buffer, whatever its bytes, exactly when
  // nothing was cut off.
  lemma NarrowedLength(v: word, n: nat)
    ensures (forall data: seq<byte> :: |data| == n ==> Fold(v, data[..n % UINT_LIMIT]) == Fold(v, data))
       <==> n < UINT_LIMIT
  {
    hide Fold;
    if n >= UINT_LIMIT {
      var pre := ZeroBytes(n - 1);
      var a, b := pre + [0], pre + [1];
      assert a[..n % UINT_LIMIT] == b[..n % UINT_LIMIT];
      assert pre + [0] + [] == a && pre + [1] + [] == b;
      if Fold(v, a) == Fold(v, b) {
        OneByteDetected(v, pre, 0, 1, []);
      }
      assert |a| == |b| == n;
    } else {
      assert forall data: seq<byte> :: |data| == n ==> data[..n % UINT_LIMIT] == data;
    }
  }
}
