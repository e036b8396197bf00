// Raw buffers and the windows onto them.
module BufferRaw {
  import opened Crc

  // The checksum remembered for one byte range of a raw: for start value base it
  // is val.  last_crc_offset at its initial value is NoCrc.
  datatype CrcSlot = NoCrc | Cached(from: nat, to: nat, base: word, val: word)

  // The remembered checksum is that of these bytes.
  ghost predicate SlotHolds(slot: CrcSlot, data: seq<byte>) {
    slot.Cached? ==>
      slot.from <= slot.to <= |data| && slot.val == Fold(slot.base, data[slot.from..slot.to])
  }

  // No remembered checksum covers any of n bytes at position at.
  ghost predicate Untouched(slot: CrcSlot, at: nat, n: nat) {
    slot.NoCrc? || n == 0 || slot.from == slot.to || at + n <= slot.from || slot.to <= at
  }

  // Memory never starts at the null pointer.
  type Address = a: nat | a > 0 witness 1

  // A raw buffer.  The ghost fields record how far its bytes have been handed
  // out, and which object may append after that point.
  class Raw {
    const addr: Address
    var data: seq<byte>
    var slot: CrcSlot
    ghost var used: nat
    ghost var owner: object?

    // The remembered checksum is the checksum of the bytes as they are now.
    ghost predicate Coherent()
      reads this
    {
      (slot.Cached? ==> slot.to <= used <= |data|) && SlotHolds(slot, data)
    }

    ghost predicate Valid()
      reads this
    {
      used <= |data| && Coherent()
    }

    // create_aligned: fresh memory of unspecified contents.
    constructor (len: nat, align: nat)
      requires align > 0
      ensures Valid()
      ensures |data| == len && addr % align == 0
      ensures slot.NoCrc? && used == 0 && owner == null
    {
      addr := align;
      data := seq(len, _ => 0);
      slot, used, owner := NoCrc, 0, null;
    }

    // get_crc
    method GetCrc(from: nat, to: nat) returns (hit: bool, base: word, val: word)
      requires Valid()
      ensures hit <==> slot.Cached? && slot.from == from && slot.to == to
      ensures hit ==> to <= used && from <= to && val == Fold(base, data[from..to])
    {
      hit := slot.Cached? && slot.from == from && slot.to == to;
      base, val := 0, 0;
      if hit {
        base, val := slot.base, slot.val;
      }
    }

    // set_crc
    method SetCrc(from: nat, to: nat, base: word, val: word)
      requires Valid() && from <= to <= used && val == Fold(base, data[from..to])
      modifies this`slot
      ensures Valid() && slot == Cached(from, to, base, val)
    {
      slot := Cached(from, to, base, val);
    }

    // invalidate_crc
    method InvalidateCrc()
      requires used <= |data|
      modifies this`slot
      ensures Valid() && slot.NoCrc?
    {
      slot := NoCrc;
    }

    // Write bytes just past the part that has been handed out.
    method Grow(at: nat, bytes: seq<byte>)
      requires Valid() && at == used && used + |bytes| <= |data|
      modifies this`data, this`used
      ensures Valid() && |data| == old(|data|) && used == old(used) + |bytes|
      ensures data[old(used)..used] == bytes
      ensures forall p: Ptr :: old(allocated(p)) && old(p.Ok()) ==> p.Ok() && p.Bytes() == old(p.Bytes())
    {
      data := data[..at] + bytes + data[at + |bytes|..];
      used := used + |bytes|;
      assert forall i, j :: 0 <= i <= j <= at ==> data[i..j] == old(data)[i..j];
    }

    // Write bytes past the part that has been handed out, without handing them out.
    method Scribble(at: nat, bytes: seq<byte>)
      requires Valid() && used <= at && at + |bytes| <= |data|
      modifies this`data
      ensures Valid() && data == Patched(old(data), at, bytes)
      ensures forall p: Ptr :: old(allocated(p)) && old(p.Ok()) ==> p.Ok() && p.Bytes() == old(p.Bytes())
    {
      data := data[..at] + bytes + data[at + |bytes|..];
      assert forall i, j :: 0 <= i <= j <= at ==> data[i..j] == old(data)[i..j];
    }

    // ptr::copy_in and ptr::zero on bytes that have been handed out.  The
    // remembered checksum is dropped only with a reset.
    method CopyIn(at: nat, bytes: seq<byte>, crcReset: bool)
      requires at + |bytes| <= used <= |data|
      modifies this`data, this`slot
      ensures data == Patched(old(data), at, bytes)
      ensures slot == if crcReset then NoCrc else old(slot)
      ensures slot.NoCrc? ==> Valid()
      ensures old(Valid()) && Untouched(slot, at, |bytes|) ==> Valid()
    {
      if crcReset {
        slot := NoCrc;
      }
      data := data[..at] + bytes + data[at + |bytes|..];
      if slot.Cached? && old(Valid()) && Untouched(slot, at, |bytes|) {
        assert data[slot.from..slot.to] == old(data)[slot.from..slot.to];
      }
    }

    // Hand out n more bytes as they are.
    method Expose(ghost at: nat, ghost n: nat)
      requires Valid() && at == used && used + n <= |data|
      modifies this`used
      ensures Valid() && used == old(used) + n
      ensures forall p: Ptr :: old(allocated(p)) && old(p.Ok()) ==> p.Ok() && p.Bytes() == old(p.Bytes())
    {
      used := used + n;
    }
  }

  // A window onto a raw.
  datatype Ptr = Ptr(raw: Raw, off: nat, len: nat) {

    function End(): nat {
      off + len
    }

    // The window lies in the part of the raw that has been handed out.
    ghost predicate Ok()
      reads raw
    {
      raw.Valid() && off + len <= raw.used
    }

    ghost function Bytes(): (b: seq<byte>)
      requires Ok()
      reads raw
      ensures |b| == len
    {
      raw.data[off..off + len]
    }

    // unused_tail_length
    function Spare(): nat
      requires off + len <= |raw.data|
      reads raw
    {
      |raw.data| - (off + len)
    }

    function Address(): nat {
      raw.addr + off
    }

    // is_aligned: for a power of two, testing the low bits of the address.
    predicate IsAligned(align: nat)
      requires align > 0
    {
      Address() % align == 0
    }

    // is_n_align_sized
    predicate IsSized(align: nat)
      requires align > 0
    {
      len % align == 0
    }
  }

  // create, and a copy of the bytes.
  method NewPtr(bytes: seq<byte>) returns (p: Ptr)
    ensures fresh(p.raw) && p.Ok() && p.Bytes() == bytes && p.raw.addr % 8 == 0
  {
    var r := new Raw(|bytes|, 8);
    r.used := |bytes|;
    r.CopyIn(0, bytes, false);
    p := Ptr(r, 0, |bytes|);
  }

  function Patched(data: seq<byte>, at: nat, bytes: seq<byte>): (d: seq<byte>)
    requires at + |bytes| <= |data|
    ensures |d| == |data|
    ensures forall i :: 0 <= i < |d| ==> d[i] == if at <= i < at + |bytes| then bytes[i - at] else data[i]
  {
    data[..at] + bytes + data[at + |bytes|..]
  }

  // A remembered checksum survives every write of n bytes at position at exactly
  // when it covers none of them.
  lemma FillKeepsChecksum(slot: CrcSlot, data: seq<byte>, at: nat, n: nat)
    requires SlotHolds(slot, data) && at + n <= |data|
    ensures (forall bytes: seq<byte> :: |bytes| == n ==> SlotHolds(slot, Patched(data, at, bytes)))
       <==> Untouched(slot, at, n)
  {
    if Untouched(slot, at, n) {
      forall bytes: seq<byte> | |bytes| == n
        ensures SlotHolds(slot, Patched(data, at, bytes))
      {
        assert slot.Cached? ==> Patched(data, at, bytes)[slot.from..slot.to] == data[slot.from..slot.to];
      }
    } else {
      var x := if at < slot.from then slot.from else at;
      FillChangesChecksum(data, slot.from, slot.to, slot.base, at, n, x);
    }
  }

  // Changing one byte inside the range changes the checksum.
  lemma FillChangesChecksum(data: seq<byte>, from: nat, to: nat, base: word, at: nat, n: nat, x: nat)
    requires from <= x < to <= |data| && at <= x < at + n <= |data|
    ensures exists bytes: seq<byte> ::
      |bytes| == n && Fold(base, Patched(data, at, bytes)[from..to]) != Fold(base, data[from..to])
  {
    hide Fold;
    var other: byte := if data[x] == 0 then 1 else 0;
    var bytes := data[at..at + n][x - at := other];
    var pre, post := data[from..x], data[x + 1..to];
    assert Patched(data, at, bytes) == data[x := other];
    assert data[x := other][from..to] == pre + [other] + post;
    assert data[from..to] == pre + [data[x]] + post;
    if Fold(base, pre + [other] + post) == Fold(base, pre + [data[x]] + post) {
      OneByteDetected(base, pre, other, data[x], post);
    }
  }

  // A window inside another window.
  lemma SubWindow(p: Ptr, off: nat, n: nat)
    requires p.Ok() && off + n <= p.len
    ensures Ptr(p.raw, p.off + off, n).Ok()
    ensures Ptr(p.raw, p.off + off, n).Bytes() == p.Bytes()[off..off + n]
  {
  }

  ghost function RawsOf(ps: seq<Ptr>): set<Raw> {
    set i | 0 <= i < |ps| :: ps[i].raw
  }

  ghost predicate AllOk(ps: seq<Ptr>)
    reads RawsOf(ps)
  {
    forall i :: 0 <= i < |ps| ==> ps[i].Ok()
  }

  // The bytes under each window.
  ghost function Chunks(ps: seq<Ptr>): (c: seq<seq<byte>>)
    requires AllOk(ps)
    reads RawsOf(ps)
    ensures |c| == |ps| && forall i :: 0 <= i < |ps| ==> c[i] == ps[i].Bytes()
  {
    seq(|ps|, i requires 0 <= i < |ps| && AllOk(ps) reads RawsOf(ps) => ps[i].Bytes())
  }
}
