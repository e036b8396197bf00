// The two software routines: the byte-at-a-time baseline, and slicing-by-8 with
// its alignment prologue and byte epilogue, on data and on implicit zeros.
module CrcSoftware {
  import opened Bits
  import opened Crc
  import opened CrcTables

  // crc32c_intel_baseline
  method Baseline(crcInit: word, buffer: Buffer, len: nat) returns (crc: word)
    requires Readable(buffer, len)
    ensures crc == Fold(crcInit, Input(buffer, len))
  {
    crc := crcInit;
    if buffer.At? {
      var p := 0;
      while p < len
        invariant 0 <= p <= len
        invariant crc == Fold(crcInit, buffer.mem[..p])
      {
        assert buffer.mem[..p] + [buffer.mem[p]] == buffer.mem[..p + 1];
        FoldSnoc(crcInit, buffer.mem[..p], buffer.mem[p]);
        crc := BaselineByte(crc, buffer.mem[p]);
        p := p + 1;
      }
    } else {
      var left := len;
      while left > 0
        invariant 0 <= left <= len
        invariant crc == Zeros(len - left, crcInit)
      {
        left := left - 1;
        crc := ZeroByte(crc);
      }
      FoldZeroBytes(crcInit, len);
    }
  }

  // The baseline's update for one byte.
  method BaselineByte(crc: word, b: byte) returns (next: word)
    ensures next == Feed(crc, b)
  {
    TableFeed(crc, b);
    XorWord(crc, b);
    BitStepsWord(BYTE_BITS, Xor(crc, b));
    next := Xor(crc / 256, SliceTable(0)[Xor(crc % 256, b)]);
  }

  // The slicing routine's update for one byte.
  method SliceByte(crc: word, b: byte) returns (next: word)
    ensures next == Feed(crc, b)
  {
    TableFeed(crc, b);
    XorWord(crc, b);
    BitStepsWord(BYTE_BITS, Xor(crc, b));
    XorComm(crc / 256, SliceTable(0)[Xor(crc, b) % 256]);
    next := Xor(SliceTable(0)[Xor(crc, b) % 256], crc / 256);
  }

  // The update of both routines for one zero byte.
  method ZeroByte(crc: word) returns (next: word)
    ensures next == ByteStep(crc)
  {
    TableFeed(crc, 0);
    XorZero(crc);
    XorZero(crc % 256);
    BitStepsWord(BYTE_BITS, crc);
    next := Xor(crc / 256, SliceTable(0)[crc % 256]);
  }

  // ----- Slicing by 8 -----

  // n + 1 zero bytes applied to a number is the sum of the runs applied to its
  // low byte and to the rest, the rest needing one byte less.
  lemma ZerosSplit(n: nat, lo: byte, hi: nat)
    ensures Zeros(n + 1, lo + 256 * hi) == Xor(Zeros(n + 1, lo), Zeros(n, hi))
  {
    XorJoin(lo, hi);
    ZerosLinear(n + 1, lo, 256 * hi);
    ZerosAdd(n, 1, 256 * hi);
    assert Zeros(1, 256 * hi) == hi by {
      assert Zeros(0, 256 * hi) == 256 * hi;
      ByteStepShl(hi);
    }
  }

  // A 32-bit word under n + 4 zero bytes is the sum of four byte entries.
  lemma FourEntries(n: nat, b0: byte, b1: byte, b2: byte, b3: byte)
    ensures Zeros(n + 4, b0 + 256 * (b1 + 256 * (b2 + 256 * (b3 as nat)))) ==
            Xor(Xor(Xor(Zeros(n + 4, b0), Zeros(n + 3, b1)), Zeros(n + 2, b2)), Zeros(n + 1, b3))
  {
    ZerosSplit(n + 3, b0, b1 + 256 * (b2 + 256 * (b3 as nat)));
    ZerosSplit(n + 2, b1, b2 + 256 * (b3 as nat));
    ZerosSplit(n + 1, b2, b3);
    Regroup(Zeros(n + 4, b0), Zeros(n + 3, b1), Zeros(n + 2, b2), Zeros(n + 1, b3));
  }

  lemma Regroup(a: nat, b: nat, c: nat, d: nat)
    ensures Xor(a, Xor(b, Xor(c, d))) == Xor(Xor(Xor(a, b), c), d)
  {
    XorAssoc(a, b, Xor(c, d));
    XorAssoc(Xor(a, b), c, d);
  }

  method Lookup(s: nat, b: byte) returns (entry: word)
    ensures entry == Zeros(s + 1, b)
  {
    SliceEntry(s, b);
    entry := SliceTable(s)[b];
  }

  // The four bytes of a word, as the shifts and masks extract them.
  method Bytes(w: word) returns (b0: byte, b1: byte, b2: byte, b3: byte)
    ensures w == b0 + 256 * (b1 + 256 * (b2 + 256 * (b3 as nat)))
  {
    var term2 := w / 256 / 256;
    b0, b1, b2, b3 := w % 256, w / 256 % 256, term2 % 256, term2 / 256 % 256;
  }

  // Little-endian 32-bit load.
  function Load32(mem: seq<byte>, p: nat): word
    requires p + 4 <= |mem|
  {
    mem[p] as nat + 0x100 * (mem[p + 1] as nat) + 0x1_0000 * (mem[p + 2] as nat) + 0x100_0000 * (mem[p + 3] as nat)
  }

  lemma Load32LittleEndian(mem: seq<byte>, p: nat)
    requires p + 4 <= |mem|
    ensures LittleEndian(mem[p..p + 4]) == Load32(mem, p)
  {
    var d := mem[p..p + 4];
    var d1 := d[1..];
    var d2 := d1[1..];
    var d3 := d2[1..];
    assert d3[1..] == [];
    assert LittleEndian(d3) == d3[0];
    assert LittleEndian(d2) == d2[0] as nat + 256 * (d3[0] as nat);
    assert LittleEndian(d1) == d1[0] as nat + 256 * (d2[0] as nat + 256 * (d3[0] as nat));
  }

  // Four bytes at once.
  lemma FourBytes(crc: word, mem: seq<byte>, p: nat)
    requires p + 4 <= |mem|
    ensures Fold(crc, mem[p..p + 4]) == Zeros(|mem[p..p + 4]|, Xor(crc, Load32(mem, p)))
  {
    FoldIsZeros(crc, mem[p..p + 4]);
    Load32LittleEndian(mem, p);
  }

  // Eight bytes at once (k is 4): the register and the first word go through
  // 2 * k zero bytes, the second word through k.
  lemma EightBytes(k: nat, crc: word, mem: seq<byte>, p: nat)
    requires k == 4 && p + 8 <= |mem|
    ensures Fold(crc, mem[p..p + 8]) ==
            Xor(Zeros(k + k, Xor(crc, Load32(mem, p))), Zeros(k, Load32(mem, p + 4)))
  {
    var w0, w1 := Load32(mem, p), Load32(mem, p + 4);
    assert mem[p..p + 8] == mem[p..p + 4] + mem[p + 4..p + 8];
    FoldSplit(crc, mem[p..p + 4], mem[p + 4..p + 8]);
    FourBytes(crc, mem, p);
    var mid := Zeros(k, Xor(crc, w0));
    XorWord(crc, w0);
    ZerosWord(k, Xor(crc, w0));
    FourBytes(mid, mem, p + 4);
    ZerosLinear(k, mid, w1);
    ZerosAdd(k, k, Xor(crc, w0));
  }

  // The byte loops before and after the eight-byte loop.
  method ByteLoop(crcIn: word, mem: seq<byte>, from: nat, to: nat) returns (crc: word)
    requires from <= to <= |mem|
    ensures crc == Fold(crcIn, mem[from..to])
  {
    hide Xor, Fold;
    crc := crcIn;
    var p := from;
    FoldEmpty(crcIn);
    assert mem[from..from] == [];
    while p < to
      invariant from <= p <= to
      invariant crc == Fold(crcIn, mem[from..p])
    {
      assert mem[from..p] + [mem[p]] == mem[from..p + 1];
      FoldSnoc(crcIn, mem[from..p], mem[p]);
      crc := SliceByte(crc, mem[p]);
      p := p + 1;
    }
  }

  method ZeroLoop(crcIn: word, count: nat) returns (crc: word)
    ensures crc == Zeros(count, crcIn)
  {
    crc := crcIn;
    for li := 0 to count
      invariant crc == Zeros(li, crcIn)
    {
      crc := ZeroByte(crc);
    }
  }

  // The entries of a word's four bytes, in slice tables n + 3 down to n.
  method Lookups(n: nat, w: word) returns (e3: word, e2: word, e1: word, e0: word)
    ensures Zeros(n + 4, w) == Xor(Xor(Xor(e3, e2), e1), e0)
  {
    var b0, b1, b2, b3 := Bytes(w);
    FourEntries(n, b0, b1, b2, b3);
    e3 := Lookup(n + 3, b0);
    e2 := Lookup(n + 2, b1);
    e1 := Lookup(n + 1, b2);
    e0 := Lookup(n, b3);
  }

  // One round of the sliced loop on the words w0 and w1 (k is 4).
  method SliceRound(ghost k: nat, crcIn: word, w0: word, w1: word) returns (crc: word)
    requires k == 4
    ensures crc == Xor(Zeros(k + k, Xor(crcIn, w0)), Zeros(k, w1))
  {
    hide Xor, Zeros;
    XorWord(crcIn, w0);
    crc := Xor(crcIn, w0);
    ZerosWord(k + k, crc);
    ZerosWord(k, w1);
    XorWord(Zeros(k + k, crc), Zeros(k, w1));

    var o88, o80, o72, o64 := Lookups(4, crc);
    var o56, o48, o40, o32 := Lookups(0, w1);
    Append3(Xor(Xor(Xor(o88, o80), o72), o64), Xor(o56, o48), o40, o32);
    crc := Xor(Xor(Xor(Xor(Xor(Xor(o88, o80), o72), o64), Xor(o56, o48)), o40), o32);
  }

  // One round of the sliced loop on the eight bytes at p.
  method SliceRoundAt(crcIn: word, mem: seq<byte>, p: nat) returns (crc: word)
    requires p + 8 <= |mem|
    ensures crc == Fold(crcIn, mem[p..p + 8])
  {
    ghost var k := 4;
    EightBytes(k, crcIn, mem, p);
    crc := SliceRound(k, crcIn, Load32(mem, p), Load32(mem, p + 4));
  }

  lemma Append3(a: nat, b: nat, c: nat, d: nat)
    ensures Xor(a, Xor(Xor(b, c), d)) == Xor(Xor(Xor(a, b), c), d)
  {
    XorAssoc(a, b, c);
    XorAssoc(a, Xor(b, c), d);
  }

  // How both sliced routines divide a length: bytes up to a 4-byte boundary,
  // then groups of eight, then at most seven bytes.
  method Divide(length: nat, offset: nat) returns (initBytes: nat, rounds: nat, endBytes: nat)
    requires offset < 4
    ensures initBytes + 8 * rounds + endBytes == length
    ensures initBytes < 4 && endBytes < 8
    ensures initBytes < length ==> (offset + initBytes) % 4 == 0
  {
    initBytes := (4 - offset) % 4;
    if initBytes > length {
      initBytes := length;
    }
    var runningLength := (length - initBytes) / 8 * 8;
    endBytes := length - initBytes - runningLength;
    rounds := runningLength / 8;
  }

  // sctp_crc32c_sb8_64_bit
  method SliceBy8(crcIn: word, mem: seq<byte>, length: nat, offset: nat) returns (crc: word)
    requires length <= |mem| && offset < 4
    ensures crc == Fold(crcIn, mem[..length])
  {
    hide Xor, Fold;
    var initBytes, rounds, endBytes := Divide(length, offset);
    crc := ByteLoop(crcIn, mem, 0, initBytes);
    assert mem[0..initBytes] == mem[..initBytes];
    var p := initBytes;
    for li := 0 to rounds
      invariant p == initBytes + 8 * li
      invariant crc == Fold(crcIn, mem[..p])
    {
      assert mem[..p] + mem[p..p + 8] == mem[..p + 8];
      FoldSplit(crcIn, mem[..p], mem[p..p + 8]);
      crc := SliceRoundAt(crc, mem, p);
      p := p + 8;
    }
    assert mem[..p] + mem[p..length] == mem[..length];
    FoldSplit(crcIn, mem[..p], mem[p..length]);
    crc := ByteLoop(crc, mem, p, p + endBytes);
  }

  lemma ZeroRound(k: nat, crc: word)
    ensures Xor(Zeros(k + k, Xor(crc, 0)), Zeros(k, 0)) == Zeros(k + k, crc)
  {
    XorZero(crc);
    ZerosOfZero(k);
    XorZero(Zeros(k + k, crc));
  }

  // sctp_crc32c_sb8_64_bit_zero
  method SliceBy8Zero(crcIn: word, length: nat, offset: nat) returns (crc: word)
    requires offset < 4
    ensures crc == Zeros(length, crcIn)
  {
    var initBytes, rounds, endBytes := Divide(length, offset);
    crc := ZeroLoop(crcIn, initBytes);
    ghost var k := 4;
    for li := 0 to rounds
      invariant crc == Zeros(initBytes + 8 * li, crcIn)
      invariant k == 4
    {
      ZerosAdd(k + k, initBytes + 8 * li, crcIn);
      ZeroRound(k, crc);
      crc := SliceRound(k, crc, 0, 0);
    }
    ZerosAdd(endBytes, initBytes + 8 * rounds, crcIn);
    crc := ZeroLoop(crc, endBytes);
  }

  // update_crc32
  method Sctp(crcIn: word, buffer: Buffer, length: nat) returns (crc: word)
    requires Readable(buffer, length)
    ensures crc == Fold(crcIn, Input(buffer, length))
  {
    if length == 0 {
      return crcIn;
    }
    var offset := if buffer.Null? then 0 else buffer.addr % 4;
    if buffer.At? {
      crc := SliceBy8(crcIn, buffer.mem, length, offset);
    } else {
      FoldZeroBytes(crcIn, length);
      crc := SliceBy8Zero(crcIn, length, offset);
    }
  }
}
