// The three-lane kernel for the crc32 instruction, on memory and on implicit
// zeros.  Registers are numbers; an instruction on n bytes is modelled by what
// it computes: the register plus the operand, through n zero bytes.
module CrcKernel {
  import opened Bits
  import opened Crc
  import opened CrcTables
  import opened CrcSoftware

  // What the kernel reads: memory from the buffer's address on, or zero words.
  datatype Source = Memory(mem: seq<byte>) | ZeroData

  ghost predicate CanRead(src: Source, p: nat, n: nat) {
    src.Memory? ==> p + n <= |src.mem|
  }

  ghost function Slice(src: Source, p: nat, n: nat): (d: seq<byte>)
    requires CanRead(src, p, n)
    ensures |d| == n
  {
    if src.ZeroData? then ZeroBytes(n) else src.mem[p..p + n]
  }

  lemma SliceJoin(src: Source, p: nat, n: nat, m: nat)
    requires CanRead(src, p, n + m)
    ensures Slice(src, p, n + m) == Slice(src, p, n) + Slice(src, p + n, m)
  {
  }

  // The crc32 instruction with an n-byte operand.
  function Instr(n: nat, crc: nat, operand: nat): nat {
    Zeros(n, Xor(crc, operand))
  }

  // A little-endian load of n bytes.
  method Load(src: Source, p: nat, n: nat) returns (w: nat)
    requires CanRead(src, p, n)
    ensures w == LittleEndian(Slice(src, p, n))
  {
    if src.ZeroData? {
      LittleEndianZeros(n);
      w := 0;
    } else {
      w := LittleEndian(src.mem[p..p + n]);
    }
  }

  lemma {:induction false} LittleEndianZeros(n: nat)
    ensures LittleEndian(ZeroBytes(n)) == 0
  {
    if n > 0 {
      LittleEndianZeros(n - 1);
      assert ZeroBytes(n)[1..] == ZeroBytes(n - 1);
    }
  }

  // A crc32 instruction on an operand in a register continues the fold of the i
  // bytes before it.
  method StepOn(n: nat, crc: nat, w: nat, src: Source, ghost v: nat, from: nat, i: nat) returns (next: nat)
    requires CanRead(src, from, i + n)
    requires w == LittleEndian(Slice(src, from + i, n))
    requires crc == Fold(v, Slice(src, from, i))
    ensures next == Fold(v, Slice(src, from, i + n))
  {
    hide Xor, Fold;
    ghost var done, here := Slice(src, from, i), Slice(src, from + i, n);
    FoldIsZeros(crc, here);
    SliceJoin(src, from, i, n);
    FoldSplit(v, done, here);
    next := Instr(n, crc, w);
  }

  // The same on the n bytes in memory.
  method Step(n: nat, crc: nat, src: Source, ghost v: nat, from: nat, i: nat) returns (next: nat)
    requires CanRead(src, from, i + n)
    requires crc == Fold(v, Slice(src, from, i))
    ensures next == Fold(v, Slice(src, from, i + n))
  {
    var w := Load(src, from + i, n);
    next := StepOn(n, crc, w, src, v, from, i);
  }

  // ----- Recombination of the lanes -----

  // The table lookups of one lane's register, shifted to their byte positions.
  // The result goes through m >= 4 more bytes; the lane is then advanced by k + m.
  method Merge(ghost m: nat, k: nat, crc: word) returns (r9: nat)
    requires m >= 4
    ensures Zeros(m, r9) == Zeros(k + m, crc)
  {
    hide Xor, Zeros;
    var b0, b1, b2, b3 := Bytes(crc);
    var t0, t1, t2, t3 := MulTable(k)[b0], MulTable(k)[b1], MulTable(k)[b2], MulTable(k)[b3];
    r9 := Xor(Xor(Xor(t0, 0x100 * (t1 as nat)), 0x1_0000 * (t2 as nat)), 0x100_0000 * (t3 as nat));
    FourEntries(k + m - 4, b0, b1, b2, b3);
    Shifted(m, 0, t0, k, b0);
    Shifted(m, 1, t1, k, b1);
    Shifted(m, 2, t2, k, b2);
    Shifted(m, 3, t3, k, b3);
    ZerosLinear(m, t0, 0x100 * (t1 as nat));
    ZerosLinear(m, Xor(t0, 0x100 * (t1 as nat)), 0x1_0000 * (t2 as nat));
    ZerosLinear(m, Xor(Xor(t0, 0x100 * (t1 as nat)), 0x1_0000 * (t2 as nat)), 0x100_0000 * (t3 as nat));
  }

  function ByteShift(j: nat, x: nat): nat
    requires j < 4
  {
    if j == 0 then x else if j == 1 then 0x100 * x else if j == 2 then 0x1_0000 * x else 0x100_0000 * x
  }

  // A table entry at byte position j has j bytes less to go.
  lemma Shifted(m: nat, j: nat, entry: nat, k: nat, b: byte)
    requires j < 4 <= m && entry == Zeros(k, b)
    ensures Zeros(m, ByteShift(j, entry)) == Zeros(k + m - j, b)
  {
    ZerosAdd(m - j, k, b);
    ZerosByteShift(m, j, entry);
  }

  lemma {:induction false} ZerosByteShift(m: nat, j: nat, x: nat)
    requires j < 4 && j <= m
    ensures Zeros(m, ByteShift(j, x)) == Zeros(m - j, x)
    decreases j
  {
    if j > 0 {
      var y := ByteShift(j - 1, x);
      assert ByteShift(j, x) == 256 * y;
      ZerosAdd(m - 1, 1, 256 * y);
      assert Zeros(1, 256 * y) == y by {
        assert Zeros(0, 256 * y) == 256 * y;
        ByteStepShl(y);
      }
      ZerosByteShift(m - 1, j - 1, x);
    }
  }

  // Three consecutive lanes in terms of the checksums of each lane on its own.
  lemma ThreeLanes(v: word, a: seq<byte>, b: seq<byte>, c: seq<byte>)
    ensures Fold(v, a + b + c) ==
            Xor(Xor(Zeros(|c| + |b|, Fold(v, a)), Zeros(|c|, Fold(0, b))), Fold(0, c))
  {
    var c0, c1, c2 := Fold(v, a), Fold(0, b), Fold(0, c);
    FoldSplit(v, a + b, c);
    FoldSplit(v, a, b);
    FoldAffine(c0, b);
    FoldAffine(Fold(c0, b), c);
    ZerosLinear(|c|, Zeros(|b|, c0), c1);
    ZerosAdd(|c|, |b|, c0);
  }

  // The merged lanes and the last word of lane 2, through the last eight bytes.
  lemma LastWord(n: nat, r10: nat, m0: nat, m1: nat, w: nat)
    ensures Zeros(n, Xor(r10, Xor(Xor(m0, m1), w))) ==
            Xor(Xor(Zeros(n, m0), Zeros(n, m1)), Zeros(n, Xor(r10, w)))
  {
    XorComm(Xor(m0, m1), w);
    XorAssoc(r10, w, Xor(m0, m1));
    XorComm(Xor(r10, w), Xor(m0, m1));
    ZerosLinear(n, Xor(m0, m1), Xor(r10, w));
    ZerosLinear(n, m0, m1);
  }

  // Recombination, as a fact about three blocks a, b and c + last.
  lemma Recombined(v: word, a: seq<byte>, b: seq<byte>, c: seq<byte>, last: seq<byte>, m0: nat, m1: nat)
    requires |a| == |b| == |c| + |last|
    requires Zeros(|last|, m0) == Zeros(|a| + |b|, Fold(v, a))
    requires Zeros(|last|, m1) == Zeros(|b|, Fold(0, b))
    ensures Zeros(|last|, Xor(Fold(0, c), Xor(Xor(m0, m1), LittleEndian(last)))) ==
            Fold(v, a + b + (c + last))
  {
    hide Xor, Fold, Zeros;
    FoldSplit(0, c, last);
    FoldIsZeros(Fold(0, c), last);
    LastWord(|last|, Fold(0, c), m0, m1, LittleEndian(last));
    ThreeLanes(v, a, b, c + last);
  }

  // crcB3: three lanes of bSize bytes, one crc32 chain each, recombined.
  method CrcB3(v: word, src: Source, p: nat, bSize: nat) returns (rax: word)
    requires bSize % 8 == 0 && bSize >= 8
    requires CanRead(src, p, 3 * bSize)
    ensures rax == Fold(v, Slice(src, p, 3 * bSize))
  {
    hide Xor, Fold;
    var crc0: nat, crc1: nat, crc2: nat := v, 0, 0;
    FoldEmpty(v);
    FoldEmpty(0);
    var p1, p2 := p + bSize, p + 2 * bSize;
    var i: nat := 0;
    assert Slice(src, p, 0) == [] && Slice(src, p1, 0) == [] && Slice(src, p2, 0) == [];
    for rep := 0 to bSize / 8 - 1
      invariant i == 8 * rep
      invariant crc0 == Fold(v, Slice(src, p, i))
      invariant crc1 == Fold(0, Slice(src, p1, i))
      invariant crc2 == Fold(0, Slice(src, p2, i))
    {
      crc0 := Step(8, crc0, src, v, p, i);
      crc1 := Step(8, crc1, src, 0, p1, i);
      crc2 := Step(8, crc2, src, 0, p2, i);
      i := i + 8;
    }
    crc0 := Step(8, crc0, src, v, p, i);
    crc1 := Step(8, crc1, src, 0, p1, i);
    rax := Recombine(v, src, p, bSize, i, crc0, crc1, crc2);
  }

  method Recombine(v: word, src: Source, p: nat, bSize: nat, i: nat, crc0: nat, crc1: nat, crc2: nat)
    returns (rax: word)
    requires bSize == i + 8
    requires CanRead(src, p, 3 * bSize)
    requires crc0 == Fold(v, Slice(src, p, bSize))
    requires crc1 == Fold(0, Slice(src, p + bSize, bSize))
    requires crc2 == Fold(0, Slice(src, p + 2 * bSize, i))
    ensures rax == Fold(v, Slice(src, p, 3 * bSize))
  {
    hide Xor, Fold, Slice;
    var n: nat := 8;
    ghost var a, b := Slice(src, p, bSize), Slice(src, p + bSize, bSize);
    ghost var c, last := Slice(src, p + 2 * bSize, i), Slice(src, p + 2 * bSize + i, n);
    FoldWord(v, a);
    FoldWord(0, b);
    var m0 := Merge(n, 2 * bSize - 8, crc0);
    var m1 := Merge(n, bSize - 8, crc1);
    var w := Load(src, p + 2 * bSize + i, n);
    Recombined(v, a, b, c, last, m0, m1);
    SliceJoin(src, p + 2 * bSize, i, n);
    SliceJoin(src, p, bSize, bSize);
    SliceJoin(src, p, 2 * bSize, bSize);
    assert a + b + (c + last) == Slice(src, p, 3 * bSize);
    FoldWord(v, a + b + (c + last));
    rax := Instr(n, crc2, Xor(Xor(m0, m1), w));
  }

  // count crc32 instructions on eight bytes each.
  method Quads(count: nat, crc: nat, src: Source, ghost v: nat, from: nat, i: nat) returns (next: nat)
    requires CanRead(src, from, i + 8 * count)
    requires crc == Fold(v, Slice(src, from, i))
    ensures next == Fold(v, Slice(src, from, i + 8 * count))
  {
    hide Xor, Fold;
    next := crc;
    for rep := 0 to count
      invariant next == Fold(v, Slice(src, from, i + 8 * rep))
    {
      next := Step(8, next, src, v, from, i + 8 * rep);
    }
  }

  // The block sizes: as long as 1920 bytes are left, then 960, 480 and 240 at
  // most once each; fewer than 240 bytes stay.  Stops early when none is left.
  method Descent(v: word, src: Source, from: nat, len: nat) returns (rax: word, done: nat, ghost groups: nat)
    requires CanRead(src, from, len)
    ensures done == 240 * groups && done <= len < done + 240
    ensures rax == Fold(v, Slice(src, from, done))
  {
    hide Xor, Fold;
    rax, done, groups := v, 0, 0;
    FoldEmpty(v);
    assert Slice(src, from, 0) == [];
    while len - done >= 1920
      invariant done == 240 * groups && done <= len
      invariant rax == Fold(v, Slice(src, from, done))
    {
      rax, done := Block(640, rax, src, v, from, done);
      groups := groups + 8;
    }
    if len - done >= 960 {
      rax, done := Block(320, rax, src, v, from, done);
      groups := groups + 4;
    }
    if len - done >= 480 {
      rax, done := Block(160, rax, src, v, from, done);
      groups := groups + 2;
    }
    if len - done >= 240 {
      rax, done := Block(80, rax, src, v, from, done);
      groups := groups + 1;
    }
  }

  method Block(bSize: nat, crc: word, src: Source, ghost v: nat, from: nat, i: nat)
    returns (next: word, done: nat)
    requires bSize % 8 == 0 && bSize >= 8
    requires CanRead(src, from, i + 3 * bSize)
    requires crc == Fold(v, Slice(src, from, i))
    ensures done == i + 3 * bSize
    ensures next == Fold(v, Slice(src, from, done))
  {
    hide Xor, Fold;
    done := i + 3 * bSize;
    SliceJoin(src, from, i, 3 * bSize);
    FoldSplit(v, Slice(src, from, i), Slice(src, from + i, 3 * bSize));
    next := CrcB3(crc, src, from + i, bSize);
  }

  // ----- The bit ladder of the last 255 bytes -----

  // Before the rung of size bytes, the length byte holds the rem bytes that are
  // left, shifted up to the top.
  ghost predicate OnRung(size: nat, lenb: nat, rem: nat) {
    && rem < 2 * size
    && (|| (size == 128 && lenb == rem)
        || (size == 64 && lenb == 2 * rem)
        || (size == 32 && lenb == 4 * rem)
        || (size == 16 && lenb == 8 * rem)
        || (size == 8 && lenb == 16 * rem)
        || (size == 4 && lenb == 32 * rem)
        || (size == 2 && lenb == 64 * rem)
        || (size == 1 && lenb == 128 * rem))
  }

  // Shifting the length byte left: the carry says whether size bytes are due,
  // and zero says that none is left.
  method ShiftOut(size: nat, lenb: nat, ghost rem: nat) returns (carry: bool, lenb': nat, ghost rem': nat)
    requires OnRung(size, lenb, rem)
    ensures carry <==> rem >= size
    ensures rem' == if carry then rem - size else rem
    ensures size > 1 ==> OnRung(size / 2, lenb', rem')
    ensures lenb' == 0 <==> rem' == 0
  {
    carry := lenb >= 128;
    rem' := if carry then rem - size else rem;
    lenb' := lenb * 2 % 256;
  }

  // bit8 .. bit4: size bytes, if due, as quadwords; stop says that the routine
  // returns because no byte is left.
  method QuadRung(size: nat, lenb: nat, crc: nat, src: Source, ghost v: nat, from: nat, i: nat, ghost rem: nat)
    returns (next: nat, pos: nat, lenb': nat, stop: bool, ghost rem': nat)
    requires size >= 8 && OnRung(size, lenb, rem)
    requires CanRead(src, from, i + rem)
    requires crc == Fold(v, Slice(src, from, i))
    ensures pos + rem' == i + rem
    ensures OnRung(size / 2, lenb', rem')
    ensures next == Fold(v, Slice(src, from, pos))
    ensures stop ==> rem' == 0
    ensures rem > 0 && !stop ==> rem' > 0
    ensures rem % 8 == 0 ==> rem' % 8 == 0
  {
    hide Xor, Fold, Slice;
    var carry;
    carry, lenb', rem' := ShiftOut(size, lenb, rem);
    next, pos, stop := crc, i, false;
    if carry {
      next := Quads(size / 8, crc, src, v, from, i);
      pos := i + size;
      stop := lenb' == 0;
    }
  }

  // The number x moved up by n bytes, and the weight of byte n.
  function Raise(n: nat, x: nat): nat {
    if n == 0 then x else 256 * Raise(n - 1, x)
  }

  function Radix(n: nat): (r: nat)
    requires n == 4 || n == 2 || n == 1
    ensures r > 0
  {
    if n == 4 then 0x1_0000_0000 else if n == 2 then 0x1_0000 else 0x100
  }

  lemma {:induction false} LittleEndianSplit(n: nat, d: seq<byte>)
    requires n <= |d|
    ensures LittleEndian(d) == LittleEndian(d[..n]) + Raise(n, LittleEndian(d[n..]))
    ensures LittleEndian(d[..n]) < Raise(n, 1)
    decreases n
  {
    if n > 0 {
      var rest := d[1..];
      LittleEndianSplit(n - 1, rest);
      assert d[..n][1..] == rest[..n - 1] && d[n..] == rest[n - 1..];
      assert LittleEndian(d[..n]) == d[0] + 256 * LittleEndian(rest[..n - 1]);
    } else {
      assert d[n..] == d;
    }
  }

  lemma RaiseIsTimes(n: nat, x: nat)
    requires n == 4 || n == 2 || n == 1
    ensures Raise(n, x) == Radix(n) * x
  {
    assert Raise(1, x) == 256 * x by { assert Raise(0, x) == x; }
    assert Raise(2, x) == 0x1_0000 * x;
    assert Raise(3, x) == 0x100_0000 * x;
  }

  // Masking and shifting a loaded register takes its bytes apart.
  lemma RegisterParts(n: nat, d: seq<byte>)
    requires n <= |d| && (n == 4 || n == 2 || n == 1)
    ensures LittleEndian(d) % Radix(n) == LittleEndian(d[..n])
    ensures LittleEndian(d) / Radix(n) == LittleEndian(d[n..])
  {
    hide LittleEndian, Raise;
    LittleEndianSplit(n, d);
    RaiseIsTimes(n, LittleEndian(d[n..]));
    RaiseIsTimes(n, 1);
  }

  // bit3 .. bit1 on the register rbx, loaded with eight bytes at i; n of them
  // are consumed by one instruction if due.
  method PartRung(n: nat, due: bool, crc: nat, rbx: nat, src: Source, ghost v: nat, from: nat, i: nat, ghost width: nat)
    returns (next: nat, pos: nat, rbx': nat, ghost width': nat)
    requires n == 4 || n == 2 || n == 1
    requires n <= width && CanRead(src, from, i + width)
    requires rbx == LittleEndian(Slice(src, from + i, width))
    requires crc == Fold(v, Slice(src, from, i))
    ensures pos == (if due then i + n else i) && width' == (if due then width - n else width)
    ensures rbx' == LittleEndian(Slice(src, from + pos, width'))
    ensures next == Fold(v, Slice(src, from, pos))
  {
    hide Xor, Fold, LittleEndian, Radix;
    next, pos, rbx', width' := crc, i, rbx, width;
    if due {
      ghost var d := Slice(src, from + i, width);
      SliceJoin(src, from + i, n, width - n);
      assert d[..n] == Slice(src, from + i, n) && d[n..] == Slice(src, from + i + n, width - n);
      RegisterParts(n, d);
      next := StepOn(n, crc, rbx % Radix(n), src, v, from, i);
      rbx' := rbx / Radix(n);
      pos, width' := i + n, width - n;
    }
  }

  // bit8 .. bit1: fewer than 256 bytes.  The load at bit3 takes eight bytes, of
  // which it may use none; when whole quadwords are left it is never reached.
  method Ladder(crc: nat, src: Source, ghost v: nat, from: nat, i: nat, rem: nat) returns (rax: nat)
    requires rem < 256 && CanRead(src, from, i + rem)
    requires CanRead(src, from, i + rem + 8) || (rem > 0 && rem % 8 == 0)
    requires crc == Fold(v, Slice(src, from, i))
    ensures rax == Fold(v, Slice(src, from, i + rem))
  {
    hide Xor, Fold, Slice, LittleEndian;
    ghost var left: nat := rem;
    var p, lenb, stop := i, rem, false;
    rax, p, lenb, stop, left := QuadRung(128, lenb, crc, src, v, from, p, left);
    if stop { return; }
    rax, p, lenb, stop, left := QuadRung(64, lenb, rax, src, v, from, p, left);
    if stop { return; }
    rax, p, lenb, stop, left := QuadRung(32, lenb, rax, src, v, from, p, left);
    if stop { return; }
    rax, p, lenb, stop, left := QuadRung(16, lenb, rax, src, v, from, p, left);
    if stop { return; }
    rax, p, lenb, stop, left := QuadRung(8, lenb, rax, src, v, from, p, left);
    if stop { return; }

    ghost var width := 8;
    var rbx := Load(src, from + p, 8);
    var carry;
    carry, lenb, left := ShiftOut(4, lenb, left);
    rax, p, rbx, width := PartRung(4, carry, rax, rbx, src, v, from, p, width);
    if carry && lenb == 0 { return; }
    carry, lenb, left := ShiftOut(2, lenb, left);
    rax, p, rbx, width := PartRung(2, carry, rax, rbx, src, v, from, p, width);
    if carry && lenb == 0 { return; }
    rax, p, rbx, width := PartRung(1, lenb != 0, rax, rbx, src, v, from, p, width);
  }

  // proc_block on: block sizes, then the bit ladder.
  method ProcBlock(v: word, src: Source, from: nat, len: nat) returns (rax: word)
    requires CanRead(src, from, len)
    requires CanRead(src, from, len + 8) || (len > 0 && len % 8 == 0)
    ensures rax == Fold(v, Slice(src, from, len))
  {
    hide Xor, Fold, Slice;
    FoldWord(v, Slice(src, from, len));
    var done := 0;
    rax := v;
    if len >= 240 {
      ghost var groups;
      rax, done, groups := Descent(v, src, from, len);
      if done == len {
        return;
      }
      assert len - done == len - 8 * (30 * groups);
    } else {
      FoldNothing(v, src, from);
    }
    rax := Ladder(rax, src, v, from, done, len - done);
  }

  lemma FoldNothing(v: nat, src: Source, from: nat)
    requires CanRead(src, from, 0)
    ensures Fold(v, Slice(src, from, 0)) == v
  {
    FoldEmpty(v);
    assert Slice(src, from, 0) == [];
  }

  // crc32_iscsi_00: align the address, then blocks and ladder.  The routine may
  // load up to eight bytes past the end, unless the end is 8-byte aligned.
  method Iscsi00(addr: nat, mem: seq<byte>, len: nat, v: word) returns (crc: word)
    requires len <= |mem|
    requires len + 8 <= |mem| || (len > 0 && (addr + len) % 8 == 0)
    ensures crc == Fold(v, mem[..len])
  {
    hide Xor, Fold;
    var src := Memory(mem);
    var bufp := (8 - addr % 8) % 8;
    assert Slice(src, 0, len) == mem[..len];
    if bufp == 0 {
      crc := ProcBlock(v, src, 0, len);
      return;
    }
    FoldWord(v, mem[..len]);
    if len < 8 {
      crc := LessThan8(v, src, len);
      return;
    }
    var head := AlignLoop(v, src, bufp);
    FoldWord(v, Slice(src, 0, bufp));
    SliceJoin(src, 0, bufp, len - bufp);
    FoldSplit(v, Slice(src, 0, bufp), Slice(src, bufp, len - bufp));
    assert (len - bufp) % 8 == (addr + len) % 8;
    crc := ProcBlock(head, src, bufp, len - bufp);
  }

  // One quadword is loaded, and its first count bytes are consumed one by one.
  method AlignLoop(v: word, src: Source, count: nat) returns (eax: nat)
    requires count <= 8 && CanRead(src, 0, 8)
    ensures eax == Fold(v, Slice(src, 0, count))
  {
    hide Xor, Fold, LittleEndian, Slice;
    FoldNothing(v, src, 0);
    eax := v;
    var rbx := Load(src, 0, 8);
    ghost var width := 8;
    var p := 0;
    while p < count
      invariant p <= count && width == 8 - p
      invariant rbx == LittleEndian(Slice(src, p, width))
      invariant eax == Fold(v, Slice(src, 0, p))
    {
      eax, p, rbx, width := PartRung(1, true, eax, rbx, src, v, 0, p, width);
    }
  }

  method LessThan8(v: word, src: Source, len: nat) returns (eax: nat)
    requires len < 8 && CanRead(src, 0, len)
    ensures eax == Fold(v, Slice(src, 0, len))
  {
    hide Xor, Fold, Slice;
    FoldNothing(v, src, 0);
    eax := v;
    var p := 0;
    if len / 4 % 2 == 1 {
      eax := Step(4, eax, src, v, 0, p);
      p := p + 4;
    }
    if len / 2 % 2 == 1 {
      eax := Step(2, eax, src, v, 0, p);
      p := p + 2;
    }
    if len % 2 == 1 {
      eax := Step(1, eax, src, v, 0, p);
      p := p + 1;
    }
  }

  // crc32_iscsi_zero_00: the same blocks and ladder on zero words.
  method IscsiZero00(len: nat, v: word) returns (crc: word)
    ensures crc == Zeros(len, v)
  {
    FoldZeroBytes(v, len);
    crc := ProcBlock(v, ZeroData, 0, len);
  }

  // crc32c_intel_fast: the kernel up to the last 8-byte boundary, so that it
  // never loads past the buffer, and the baseline for the rest.
  method IntelFast(crc: word, buffer: Buffer, length: nat) returns (v: word)
    requires Readable(buffer, length)
    ensures v == Fold(crc, Input(buffer, length))
  {
    hide Xor, Fold;
    if buffer.Null? {
      FoldZeroBytes(crc, length);
      v := IscsiZero00(length, crc);
      return;
    }
    if length < 16 {
      v := Baseline(crc, buffer, length);
      return;
    }
    var left := (buffer.addr + length) % 8;
    var len := length - left;
    v := Iscsi00(buffer.addr, buffer.mem, len, crc);
    assert buffer.mem[..len] + buffer.mem[len..length] == buffer.mem[..length];
    FoldSplit(crc, buffer.mem[..len], buffer.mem[len..length]);
    if left > 0 {
      var tail := At(buffer.addr + len, buffer.mem[len..]);
      assert tail.mem[..left] == buffer.mem[len..length];
      v := Baseline(v, tail, left);
    } else {
      FoldEmpty(v);
      assert buffer.mem[len..length] == [];
    }
  }
}
