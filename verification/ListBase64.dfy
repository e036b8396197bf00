// list::c_str, encode_base64 and decode_base64.
module ListBase64 {
  import opened Crc
  import opened Rope
  import opened BufferRaw
  import opened BufferList
  import opened Armor

  // c_str: the bytes in one piece.  For a list of several empty nodes rebuild
  // leaves no node, and the first node that is then read is the sentinel.
  method CStr(list: List, pageSize: nat) returns (data: seq<byte>, outcome: Outcome)
    requires list.Valid() && pageSize > 0
    modifies list
    ensures list.Valid() && list.Flat() == old(list.Flat())
    ensures outcome == if |old(list.buffers)| > 1 && old(list.len) == 0 then PastEnd else Done
    ensures outcome == Done ==> data == list.Flat()
    ensures forall b: List :: old(allocated(b)) && b != list && old(b.Valid()) ==>
      b.Valid() && b.Flat() == old(b.Flat())
  {
    hide Fold, Raw.Coherent;
    if list.buffers == [] {
      return [], Done;
    }
    if |list.buffers| > 1 {
      list.Rebuild(pageSize);
      forall b: List | old(allocated(b)) && b != list && old(b.Valid())
        ensures b.Valid() && b.Flat() == old(b.Flat())
      {
        ListKept(b);
      }
      if list.buffers == [] {
        return [], PastEnd;
      }
    }
    var p := list.buffers[0];
    data := p.raw.data[p.off..p.off + p.len];
    assert Chunks(list.buffers) == [data];
    ConcatOne(data);
    outcome := Done;
  }

  // encode_base64: the armor of this list joins the other list.  The buffer of
  // 4n/3+3 bytes is always big enough.
  method EncodeBase64(list: List, waiting: List, pageSize: nat) returns (outcome: Outcome)
    requires list.Valid() && waiting.Valid() && list != waiting && pageSize > 0
    modifies list, waiting
    ensures list.Valid() && list.Flat() == old(list.Flat())
    ensures outcome == if |old(list.buffers)| > 1 && old(list.len) == 0 then PastEnd else Done
    ensures outcome == Done ==>
      waiting.Valid() && waiting.Flat() == old(waiting.Flat()) + Encode(old(list.Flat()), 0, 0)
  {
    hide Fold, Raw.Coherent, Concat, Encode;
    var data;
    data, outcome := CStr(list, pageSize);
    if outcome == Done {
      EncodedLength(data, 0);
      label read:
      var p := Encoded(data);
      ListKept@read(list);
      ListKept@read(waiting);
      label encoded:
      waiting.PushBackMoved(p);
      ListKept@encoded(list);
    }
  }

  // A buffer of 4n/3+3 bytes, filled and cut to length.
  method Encoded(data: seq<byte>) returns (p: Ptr)
    ensures fresh(p.raw) && p.Ok() && p.Bytes() == Encode(data, 0, 0)
  {
    hide Encode;
    EncodedLength(data, 0);
    var dst := new byte[|data| * 4 / 3 + 3];
    var n, ok := ArmorLineBreak(dst, data, 0);
    p := NewPtr(dst[..n]);
  }

  // decode_base64: the bytes that the other list's characters stand for join
  // this list; bad characters are an exception, too little room never happens.
  method DecodeBase64(list: List, encoded: List, pageSize: nat) returns (outcome: Outcome, malformed: bool)
    requires list.Valid() && encoded.Valid() && list != encoded && pageSize > 0
    modifies list, encoded
    ensures encoded.Valid() && encoded.Flat() == old(encoded.Flat()) && list.Valid()
    ensures outcome == if |old(encoded.buffers)| > 1 && old(encoded.len) == 0 then PastEnd else Done
    ensures outcome == Done ==>
      var d := Decode(old(encoded.Flat()), 4 + old(encoded.len) * 3 / 4);
      && d != NoRoom && (malformed <==> d == Invalid)
      && list.Flat() == old(list.Flat()) + if d.Bytes? then d.bytes else []
  {
    hide Fold, Raw.Coherent, Concat, Decode;
    encoded.FlatIsParts();
    malformed := false;
    var data;
    data, outcome := CStr(encoded, pageSize);
    if outcome == Done {
      RoomSuffices(data, 4 + |data| * 3 / 4);
      label read:
      var p, ok := Unarmored(data);
      ListKept@read(list);
      ListKept@read(encoded);
      label decoded:
      malformed := !ok;
      if ok {
        list.PushBackMoved(p);
        ListKept@decoded(encoded);
      } else {
        assert list.Flat() + [] == list.Flat();
      }
    }
  }

  method Unarmored(data: seq<byte>) returns (p: Ptr, ok: bool)
    ensures fresh(p.raw) && p.Ok()
    ensures var d := Decode(data, 4 + |data| * 3 / 4);
      ok == d.Bytes? && (ok ==> p.Bytes() == d.bytes)
  {
    hide Decode;
    var dst := new byte[4 + |data| * 3 / 4];
    var n, result := Unarmor(dst, data);
    ok := result.Bytes?;
    p := NewPtr(if ok then dst[..n] else []);
  }

  // What encode_base64 makes, decode_base64 undoes.
  lemma Base64RoundTrip(bytes: seq<byte>)
    ensures var armor := Encode(bytes, 0, 0);
      Decode(armor, 4 + |armor| * 3 / 4) == Bytes(bytes)
  {
    hide Encode, Decode;
    EncodedLength(bytes, 0);
    RoundTrip(bytes, 0, 0, 4 + |Encode(bytes, 0, 0)| * 3 / 4);
  }
}
