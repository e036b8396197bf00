// The CRC-32C byte fold that every checksum routine of the repository computes:
// the Castagnoli polynomial of RFC 4960, Appendix B, reflected, with no initial
// and no final inversion.  The proofs rest on one fact: a zero byte acts
// linearly on the register, so a checksum is a zero run applied to the register
// exclusive-or the data.
module Crc {
  import opened Bits

  type byte = x: nat | x < 256
  type word = x: nat | x < 0x1_0000_0000

  // The reflected Castagnoli polynomial.
  const POLY: word := 0x82F63B78

  const BYTE_BITS: nat := 8

  // One step of the shift register.
  function BitStep(v: nat): nat {
    if v % 2 == 1 then Xor(v / 2, POLY) else v / 2
  }

  // k steps of the shift register.
  function BitSteps(k: nat, v: nat): nat {
    if k == 0 then v else BitStep(BitSteps(k - 1, v))
  }

  // Eight register steps: the effect of one zero byte.
  function ByteStep(v: nat): nat {
    BitSteps(BYTE_BITS, v)
  }

  // The effect of k zero bytes.
  function Zeros(k: nat, v: nat): nat {
    if k == 0 then v else ByteStep(Zeros(k - 1, v))
  }

  // A data pointer handed to a checksum routine: NULL stands for zero-filled data.
  datatype Buffer = Null | At(addr: nat, mem: seq<byte>)

  ghost predicate Readable(buffer: Buffer, len: nat) {
    buffer.At? ==> buffer.addr > 0 && len <= |buffer.mem|
  }

  ghost function Input(buffer: Buffer, len: nat): seq<byte>
    requires Readable(buffer, len)
  {
    if buffer.Null? then ZeroBytes(len) else buffer.mem[..len]
  }

  function Feed(v: nat, b: byte): nat {
    ByteStep(Xor(v, b))
  }

  // The checksum of data, starting from register value v.
  function Fold(v: nat, data: seq<byte>): nat {
    if data == [] then v else Feed(Fold(v, data[..|data| - 1]), data[|data| - 1])
  }

  // The little-endian number whose bytes are data.
  function LittleEndian(data: seq<byte>): nat {
    if data == [] then 0 else data[0] + 256 * LittleEndian(data[1..])
  }

  // ----- Zero runs: linear, additive, injective, inside 32 bits -----

  lemma BitStepLinear(a: nat, b: nat)
    ensures BitStep(Xor(a, b)) == Xor(BitStep(a), BitStep(b))
  {
    XorStep(a, b);
    var x, y := a / 2, b / 2;
    if a % 2 == 1 && b % 2 == 1 {
      XorSwap(x, POLY, y, POLY);
      XorSelf(POLY);
      XorZero(Xor(x, y));
    } else if a % 2 == 1 {
      XorAssoc(x, POLY, y);
      XorComm(POLY, y);
      XorAssoc(x, y, POLY);
    } else if b % 2 == 1 {
      XorAssoc(x, y, POLY);
    }
  }

  lemma {:induction false} BitStepsLinear(k: nat, a: nat, b: nat)
    ensures BitSteps(k, Xor(a, b)) == Xor(BitSteps(k, a), BitSteps(k, b))
  {
    if k > 0 {
      BitStepsLinear(k - 1, a, b);
      BitStepLinear(BitSteps(k - 1, a), BitSteps(k - 1, b));
    }
  }

  lemma {:induction false} ZerosLinear(k: nat, a: nat, b: nat)
    ensures Zeros(k, Xor(a, b)) == Xor(Zeros(k, a), Zeros(k, b))
  {
    if k > 0 {
      ZerosLinear(k - 1, a, b);
      BitStepsLinear(BYTE_BITS, Zeros(k - 1, a), Zeros(k - 1, b));
    }
  }

  lemma {:induction false} ZerosOfZero(k: nat)
    ensures Zeros(k, 0) == 0
  {
    ZerosLinear(k, 0, 0);
    XorSelf(0);
    XorSelf(Zeros(k, 0));
  }

  lemma {:induction false} ZerosAdd(j: nat, k: nat, v: nat)
    ensures Zeros(j + k, v) == Zeros(j, Zeros(k, v))
  {
    if j > 0 {
      ZerosAdd(j - 1, k, v);
    }
  }

  // A low byte of zeros is shifted out unchanged.
  lemma {:induction false} BitStepsShl(k: nat, v: nat)
    ensures BitSteps(k, Shl(k, v)) == v
  {
    if k > 0 {
      BitStepsOut(k - 1, Shl(k - 1, v));
      BitStepsShl(k - 1, v);
    }
  }

  // Doubling undoes the first of k + 1 steps.
  lemma {:induction false} BitStepsOut(k: nat, v: nat)
    ensures BitSteps(k + 1, 2 * v) == BitSteps(k, v)
  {
    if k > 0 {
      BitStepsOut(k - 1, v);
    }
  }

  lemma ByteStepShl(v: nat)
    ensures ByteStep(256 * v) == v
  {
    Pow2Facts();
    ShlTimes(BYTE_BITS, v);
    BitStepsShl(BYTE_BITS, v);
  }

  // The table form of a byte step: shift out eight bits and add the entry of the low byte.
  lemma ByteStepTable(v: nat)
    ensures ByteStep(v) == Xor(ByteStep(v % 256), v / 256)
  {
    XorJoin(v % 256, v / 256);
    BitStepsLinear(BYTE_BITS, v % 256, 256 * (v / 256));
    ByteStepShl(v / 256);
  }

  lemma BitStepWord(v: word)
    ensures BitStep(v) < 0x1_0000_0000
  {
    XorWord(v / 2, POLY);
  }

  lemma {:induction false} BitStepsWord(k: nat, v: word)
    ensures BitSteps(k, v) < 0x1_0000_0000
  {
    if k > 0 {
      BitStepsWord(k - 1, v);
      BitStepWord(BitSteps(k - 1, v));
    }
  }

  lemma {:induction false} ZerosWord(k: nat, v: word)
    ensures Zeros(k, v) < 0x1_0000_0000
  {
    if k > 0 {
      ZerosWord(k - 1, v);
      BitStepsWord(BYTE_BITS, Zeros(k - 1, v));
    }
  }

  lemma {:induction false} FoldWord(v: word, data: seq<byte>)
    ensures Fold(v, data) < 0x1_0000_0000
  {
    if data != [] {
      FoldWord(v, data[..|data| - 1]);
      var c, b := Fold(v, data[..|data| - 1]), data[|data| - 1];
      XorWord(c, b);
      BitStepsWord(BYTE_BITS, Xor(c, b));
    }
  }

  // ----- The checksum of data is a zero run -----

  lemma FoldEmpty(v: nat)
    ensures Fold(v, []) == v
  {
  }

  lemma FoldSnoc(v: nat, data: seq<byte>, b: byte)
    ensures Fold(v, data + [b]) == Feed(Fold(v, data), b)
  {
    assert (data + [b])[..|data|] == data;
  }

  lemma {:induction false} FoldSplit(v: nat, a: seq<byte>, b: seq<byte>)
    ensures Fold(v, a + b) == Fold(Fold(v, a), b)
  {
    if b == [] {
      assert a + b == a;
    } else {
      var c, x := b[..|b| - 1], b[|b| - 1];
      FoldSplit(v, a, c);
      assert a + b == (a + c) + [x];
      FoldSnoc(v, a + c, x);
    }
  }

  lemma FoldCons(v: nat, b: byte, rest: seq<byte>)
    ensures Fold(v, [b] + rest) == Fold(Feed(v, b), rest)
  {
    FoldSplit(v, [b], rest);
    assert [b][..0] == [];
  }

  // Feeding data is clearing the register through |data| zero bytes after
  // adding the data to it.
  lemma {:induction false} FoldIsZeros(v: nat, data: seq<byte>)
    ensures Fold(v, data) == Zeros(|data|, Xor(v, LittleEndian(data)))
    decreases data
  {
    if data == [] {
      XorZero(v);
    } else {
      var b, rest := data[0], data[1..];
      var n, w := |rest|, LittleEndian(rest);
      assert data == [b] + rest;
      FoldCons(v, b, rest);
      FoldIsZeros(Feed(v, b), rest);
      // Zeros(n, ByteStep(v ^ b) ^ w), with w == ByteStep(256 * w)
      ByteStepShl(w);
      BitStepsLinear(BYTE_BITS, Xor(v, b), 256 * w);
      XorAssoc(v, b, 256 * w);
      XorJoin(b, w);
      ZerosAdd(n, 1, Xor(v, LittleEndian(data)));
      assert Zeros(1, Xor(v, LittleEndian(data))) == ByteStep(Xor(v, LittleEndian(data))) by {
        assert Zeros(0, Xor(v, LittleEndian(data))) == Xor(v, LittleEndian(data));
      }
    }
  }

  // The checksum from any start value is the checksum from zero plus a zero run.
  lemma FoldAffine(v: nat, data: seq<byte>)
    ensures Fold(v, data) == Xor(Zeros(|data|, v), Fold(0, data))
  {
    FoldIsZeros(v, data);
    FoldIsZeros(0, data);
    XorZero(LittleEndian(data));
    ZerosLinear(|data|, v, LittleEndian(data));
  }

  // A checksum known for one start value gives the checksum for every other one.
  lemma Rebase(v: nat, base: nat, data: seq<byte>)
    ensures Fold(v, data) == Xor(Fold(base, data), Zeros(|data|, Xor(base, v)))
  {
    var n, d := |data|, Fold(0, data);
    FoldAffine(v, data);
    FoldAffine(base, data);
    ZerosLinear(n, base, v);
    var zb, zv := Zeros(n, base), Zeros(n, v);
    // (zb ^ d) ^ (zb ^ zv)
    XorSwap(zb, d, zb, zv);
    XorSelf(zb);
    XorZero(Xor(d, zv));
    XorComm(d, zv);
  }

  function ZeroBytes(k: nat): (z: seq<byte>)
    ensures |z| == k && forall i :: 0 <= i < k ==> z[i] == 0
  {
    seq(k, _ => 0)
  }

  lemma {:induction false} FoldZeroBytes(v: nat, k: nat)
    ensures Fold(v, ZeroBytes(k)) == Zeros(k, v)
  {
    if k > 0 {
      FoldZeroBytes(v, k - 1);
      assert ZeroBytes(k)[..k - 1] == ZeroBytes(k - 1);
      XorZero(Zeros(k - 1, v));
    }
  }

  // ----- A checksum determines its start value, and every byte -----

  lemma BitStepInjective(a: word, b: word)
    requires BitStep(a) == BitStep(b)
    ensures a == b
  {
    XorStepTop(a / 2);
    XorStepTop(b / 2);
    if a % 2 == 1 && b % 2 == 1 {
      XorCancel(a / 2, POLY);
      XorCancel(b / 2, POLY);
    }
  }

  // Adding the polynomial sets the top bit, which a shifted word never has.
  lemma XorStepTop(x: nat)
    requires x < 0x8000_0000
    ensures Xor(x, POLY) >= 0x8000_0000
  {
    Pow2Facts();
    assert Pow2(31) == 0x8000_0000;
    XorSplit(31, 0, x, 1, POLY - 0x8000_0000);
    ShlTimes(31, 1);
    ShlTimes(31, 0);
    XorZero(1);
  }

  lemma {:induction false} BitStepsInjective(k: nat, a: word, b: word)
    requires BitSteps(k, a) == BitSteps(k, b)
    ensures a == b
  {
    if k > 0 {
      BitStepsWord(k - 1, a);
      BitStepsWord(k - 1, b);
      BitStepInjective(BitSteps(k - 1, a), BitSteps(k - 1, b));
      BitStepsInjective(k - 1, a, b);
    }
  }

  lemma {:induction false} ZerosInjective(k: nat, a: word, b: word)
    requires Zeros(k, a) == Zeros(k, b)
    ensures a == b
  {
    if k > 0 {
      ZerosWord(k - 1, a);
      ZerosWord(k - 1, b);
      BitStepsInjective(BYTE_BITS, Zeros(k - 1, a), Zeros(k - 1, b));
      ZerosInjective(k - 1, a, b);
    }
  }

  // Two buffers that differ in exactly one byte never share a checksum.
  lemma OneByteDetected(v: word, pre: seq<byte>, x: byte, y: byte, post: seq<byte>)
    requires Fold(v, pre + [x] + post) == Fold(v, pre + [y] + post)
    ensures x == y
  {
    var c := Fold(v, pre);
    FoldWord(v, pre);
    FoldSplit(v, pre + [x], post);
    FoldSplit(v, pre + [y], post);
    FoldSnoc(v, pre, x);
    FoldSnoc(v, pre, y);
    var a, b := Xor(c, x), Xor(c, y);
    XorWord(c, x);
    XorWord(c, y);
    BitStepsWord(BYTE_BITS, a);
    BitStepsWord(BYTE_BITS, b);
    FoldAffine(Feed(c, x), post);
    FoldAffine(Feed(c, y), post);
    XorCancel(Zeros(|post|, Feed(c, x)), Fold(0, post));
    XorCancel(Zeros(|post|, Feed(c, y)), Fold(0, post));
    ZerosInjective(|post|, Feed(c, x), Feed(c, y));
    BitStepsInjective(BYTE_BITS, a, b);
    XorCancel(x, c);
    XorCancel(y, c);
  }
}
