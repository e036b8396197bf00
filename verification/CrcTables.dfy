// The lookup tables of the checksum routines, built by their generators, and
// what every entry means: a zero run applied to the entry's index.
module CrcTables {
  import opened Bits
  import opened Crc

  // Slice table s + 1 is the byte step of slice table s; slice table 0 is the
  // classic byte table.
  function SliceTable(s: nat): (t: seq<word>)
    ensures |t| == 256
  {
    if s == 0 then
      seq(256, b requires 0 <= b < 256 => TableStep(b))
    else
      var prev := SliceTable(s - 1);
      seq(256, b requires 0 <= b < 256 => TableStep(prev[b]))
  }

  // One byte step of a table entry.
  function TableStep(v: word): word {
    BitStepsWord(BYTE_BITS, v);
    ByteStep(v)
  }

  lemma {:induction false} SliceEntry(s: nat, b: byte)
    ensures SliceTable(s)[b] == Zeros(s + 1, b)
  {
    assert Zeros(0, b) == b;
    assert Zeros(1, b) == ByteStep(b);
    if s > 0 {
      SliceEntry(s - 1, b);
    }
  }

  // The byte update of the table-driven loops.
  lemma TableFeed(v: nat, b: byte)
    ensures Feed(v, b) == Xor(v / 256, SliceTable(0)[Xor(v, b) % 256])
    ensures Xor(v % 256, b) == Xor(v, b) % 256
  {
    XorBytes(v, b);
    ByteStepTable(Xor(v, b));
    SliceEntry(0, Xor(v, b) % 256);
    assert Zeros(1, Xor(v, b) % 256) == ByteStep(Xor(v, b) % 256) by {
      assert Zeros(0, Xor(v, b) % 256) == Xor(v, b) % 256;
    }
    XorZero(v / 256);
    XorComm(v / 256, ByteStep(Xor(v, b) % 256));
  }

  function Advance(k: nat, v: word): word {
    ZerosWord(k, v);
    Zeros(k, v)
  }

  // The recombination tables of the three-lane kernel.
  function MulTable(k: nat): (t: seq<word>)
    ensures |t| == 256
    ensures forall b :: 0 <= b < 256 ==> t[b] == Zeros(k, b)
  {
    seq(256, b requires 0 <= b < 256 => Advance(k, b))
  }

  // ----- GF(2) matrices -----

  // The product of a matrix, given by its columns from column k on, with the
  // vector whose bits are v.
  function Apply(columns: seq<word>, k: nat, v: nat): nat
    decreases v
  {
    if v == 0 || k >= |columns| then 0
    else Xor(if v % 2 == 1 then columns[k] else 0, Apply(columns, k + 1, v / 2))
  }

  lemma {:induction false} ApplyWord(columns: seq<word>, k: nat, v: nat)
    ensures Apply(columns, k, v) < 0x1_0000_0000
    decreases v
  {
    if v != 0 && k < |columns| {
      ApplyWord(columns, k + 1, v / 2);
      XorWord(if v % 2 == 1 then columns[k] else 0, Apply(columns, k + 1, v / 2));
    }
  }

  function Product(columns: seq<word>, v: word): word {
    ApplyWord(columns, 0, v);
    Apply(columns, 0, v)
  }

  // Row r holds the columns of the matrix of 2^r zero bytes, by repeated squaring.
  function TurboRow(r: nat): (t: seq<word>)
    ensures |t| == 32
  {
    if r == 0 then
      seq(32, i requires 0 <= i < 32 => Column(i))
    else
      var half := TurboRow(r - 1);
      seq(32, i requires 0 <= i < 32 => Product(half, half[i]))
  }

  function Column(i: nat): word
    requires i < 32
  {
    Pow2Mono(i, 31);
    assert Pow2(31) == 0x8000_0000 by { Pow2Facts(); }
    BitStepsWord(BYTE_BITS, Pow2(i));
    ByteStep(Pow2(i))
  }

  lemma {:induction false} Pow2Mono(i: nat, j: nat)
    requires i <= j
    ensures Pow2(i) <= Pow2(j)
    decreases j
  {
    if i < j {
      Pow2Mono(i, j - 1);
    }
  }

  // The columns are the images of the unit vectors under n zero bytes.
  ghost predicate IsZeroRun(columns: seq<word>, n: nat) {
    |columns| == 32 && forall i :: 0 <= i < 32 ==> columns[i] == Zeros(n, Pow2(i))
  }

  // A vector is its last bit plus twice the rest, also after a shift by k.
  lemma {:induction false} ShlBit(k: nat, v: nat)
    ensures Shl(k, v) == Xor(if v % 2 == 1 then Pow2(k) else 0, Shl(k + 1, v / 2))
  {
    var hi := v / 2;
    if k == 0 {
      assert Shl(1, hi) == 2 * hi by { assert Shl(0, hi) == hi; }
      XorLastBit(v % 2, hi);
    } else {
      ShlBit(k - 1, v);
      XorDouble(if v % 2 == 1 then Pow2(k - 1) else 0, Shl(k, hi));
    }
  }

  // The matrix product is the zero run, for every vector of at most 32 - k bits.
  lemma {:induction false} ApplyIsZeros(columns: seq<word>, n: nat, k: nat, v: nat)
    requires IsZeroRun(columns, n)
    requires k <= 32 && v < Pow2(32 - k)
    ensures Apply(columns, k, v) == Zeros(n, Shl(k, v))
    decreases v
  {
    if v == 0 {
      ShlZero(k);
      ZerosOfZero(n);
    } else {
      var bit := if v % 2 == 1 then Pow2(k) else 0;
      ApplyIsZeros(columns, n, k + 1, v / 2);
      ShlBit(k, v);
      ZerosLinear(n, bit, Shl(k + 1, v / 2));
      ZerosOfZero(n);
    }
  }

  lemma ProductIsZeros(columns: seq<word>, n: nat, v: word)
    requires IsZeroRun(columns, n)
    ensures Product(columns, v) == Zeros(n, v)
  {
    Pow2Facts();
    ApplyIsZeros(columns, n, 0, v);
  }

  lemma SquareColumn(half: seq<word>, n: nat, unit: nat, column: word)
    requires IsZeroRun(half, n) && column == Zeros(n, unit)
    ensures Product(half, column) == Zeros(2 * n, unit)
  {
    ProductIsZeros(half, n, column);
    ZerosAdd(n, n, unit);
  }

  // Row r is the matrix of 2^r zero bytes.
  lemma {:induction false} TurboRowIsZeroRun(r: nat)
    ensures IsZeroRun(TurboRow(r), Pow2(r))
  {
    if r == 0 {
      forall i | 0 <= i < 32
        ensures TurboRow(0)[i] == Zeros(1, Pow2(i))
      {
        assert Zeros(0, Pow2(i)) == Pow2(i);
      }
    } else {
      var half, n := TurboRow(r - 1), Pow2(r - 1);
      TurboRowIsZeroRun(r - 1);
      forall i | 0 <= i < 32
        ensures TurboRow(r)[i] == Zeros(Pow2(r), Pow2(i))
      {
        SquareColumn(half, n, Pow2(i), half[i]);
      }
    }
  }
}
