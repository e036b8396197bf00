// Base64 armor: the encoding of section 4 of RFC 4648, with optional line
// breaks, and a decoder that skips line breaks and also takes the alphabet of
// section 5.  A bitwise "or" of disjoint bit fields is written as a sum.
module Armor {
  import opened Crc

  const NEWLINE: byte := 10
  const PAD: byte := 61  // '='

  // pem_key[c]
  function EncodeBits(c: nat): byte
    requires c < 64
  {
    if c < 26 then 65 + c
    else if c < 52 then 97 + (c - 26)
    else if c < 62 then 48 + (c - 52)
    else if c == 62 then 43 else 47
  }

  // decode_bits: the value of a character, or -1 for one outside the alphabets.
  function DecodeBits(c: byte): int {
    if 65 <= c <= 90 then c - 65
    else if 97 <= c <= 122 then c - 97 + 26
    else if 48 <= c <= 57 then c - 48 + 52
    else if c == 43 || c == 45 then 62
    else if c == 47 || c == 95 then 63
    else if c == PAD then 0
    else -1
  }

  // The four characters for the next one to three bytes.
  function Group(src: seq<byte>): (g: seq<byte>)
    requires src != []
    ensures |g| == 4
  {
    var a := src[0] as nat;
    if |src| == 1 then
      [EncodeBits(a / 4), EncodeBits(a % 4 * 16), PAD, PAD]
    else
      var b := src[1] as nat;
      if |src| == 2 then
        [EncodeBits(a / 4), EncodeBits(a % 4 * 16 + b / 16), EncodeBits(b % 16 * 4), PAD]
      else
        var c := src[2] as nat;
        [EncodeBits(a / 4), EncodeBits(a % 4 * 16 + b / 16), EncodeBits(b % 16 * 4 + c / 64), EncodeBits(c % 64)]
  }

  function Rest(src: seq<byte>): (rest: seq<byte>)
    requires src != []
    ensures |rest| < |src|
  {
    if |src| < 3 then [] else src[3..]
  }

  // The armor of src when track characters are already on the line; width 0
  // means no line breaks.
  function Encode(src: seq<byte>, width: nat, track: nat): seq<byte>
    decreases |src|
  {
    if src == [] then []
    else if width != 0 && track + 4 == width then
      Group(src) + [NEWLINE] + Encode(Rest(src), width, 0)
    else
      Group(src) + Encode(Rest(src), width, track + 4)
  }

  datatype Decoded = Bytes(bytes: seq<byte>) | Invalid | NoRoom

  function Prepend(bytes: seq<byte>, rest: Decoded): Decoded {
    if rest.Bytes? then Bytes(bytes + rest.bytes) else rest
  }

  // What decoding src into room bytes yields.
  function Decode(src: seq<byte>, room: nat): Decoded
    decreases |src|
  {
    if src == [] then Bytes([])
    else if src[0] == NEWLINE then Decode(src[1..], room)
    else if |src| < 4 then Invalid
    else
      var a, b, c, d := DecodeBits(src[0]), DecodeBits(src[1]), DecodeBits(src[2]), DecodeBits(src[3]);
      if a < 0 || b < 0 || c < 0 || d < 0 then Invalid
      else if room < 1 then NoRoom
      else
        var x: byte := a * 4 + b / 16;
        if src[2] == PAD then Bytes([x])
        else if room < 2 then NoRoom
        else
          var y: byte := b % 16 * 16 + c / 4;
          if src[3] == PAD then Bytes([x, y])
          else if room < 3 then NoRoom
          else
            var z: byte := c % 4 * 64 + d;
            Prepend([x, y, z], Decode(src[4..], room - 3))
  }

  // ----- Round trip -----

  lemma BitsRoundTrip(c: nat)
    requires c < 64
    ensures DecodeBits(EncodeBits(c)) == c
    ensures EncodeBits(c) != PAD && EncodeBits(c) != NEWLINE
  {
  }

  // The four characters decode to the bytes of their group, and padding ends it.
  lemma GroupBack(src: seq<byte>)
    requires src != []
    ensures GroupOut(Group(src)) == if |src| < 3 then (src, true) else (src[..3], false)
    ensures Group(src)[0] != NEWLINE
  {
    hide EncodeBits, DecodeBits;
    var a := src[0] as nat;
    BitsRoundTrip(a / 4);
    PadIsZero();
    if |src| == 1 {
      BitsRoundTrip(a % 4 * 16);
      assert src == [src[0]];
    } else {
      TwoBack(src);
    }
  }

  lemma TwoBack(src: seq<byte>)
    requires |src| >= 2
    ensures GroupOut(Group(src)) == if |src| < 3 then (src, true) else (src[..3], false)
  {
    hide EncodeBits, DecodeBits;
    var a, b := src[0] as nat, src[1] as nat;
    BitsRoundTrip(a / 4);
    BitsRoundTrip(a % 4 * 16 + b / 16);
    PadIsZero();
    if |src| == 2 {
      BitsRoundTrip(b % 16 * 4);
      assert src == [src[0], src[1]];
    } else {
      ThreeBack(src);
    }
  }

  lemma ThreeBack(src: seq<byte>)
    requires |src| >= 3
    ensures GroupOut(Group(src)) == (src[..3], false)
  {
    hide EncodeBits, DecodeBits;
    var a, b, c := src[0] as nat, src[1] as nat, src[2] as nat;
    BitsRoundTrip(a / 4);
    BitsRoundTrip(a % 4 * 16 + b / 16);
    BitsRoundTrip(b % 16 * 4 + c / 64);
    BitsRoundTrip(c % 64);
    assert src[..3] == [src[0], src[1], src[2]];
  }

  lemma PadIsZero()
    ensures DecodeBits(PAD) == 0
  {
  }

  // A group decodes to its bytes; three of them, and decoding goes on.
  lemma GroupRoundTrip(src: seq<byte>, tail: seq<byte>, room: nat)
    requires src != [] && room >= |src|
    ensures Decode(Group(src) + tail, room) ==
            if |src| < 3 then Bytes(src) else Prepend(src[..3], Decode(tail, room - 3))
  {
    hide Decode, Group, GroupOut;
    var t := Group(src) + tail;
    assert t[..4] == Group(src) && t[4..] == tail && t[0] == Group(src)[0];
    GroupBack(src);
    DecodeStep(t, room);
  }

  // Decoding the armor of src gives src back, for every line width and with
  // any room that holds src.
  lemma {:induction false} RoundTrip(src: seq<byte>, width: nat, track: nat, room: nat)
    requires room >= |src|
    ensures Decode(Encode(src, width, track), room) == Bytes(src)
    decreases |src|
  {
    hide Group, Encode, Decode;
    if src == [] {
      EncodeNothing(width, track);
      DecodeNothing(room);
    } else {
      var rest := Rest(src);
      var ends := width != 0 && track + 4 == width;
      var next := Encode(rest, width, if ends then 0 else track + 4);
      var tail := (if ends then [NEWLINE] else []) + next;
      EncodeStep(src, width, track, []);
      assert [] + Encode(src, width, track) == Encode(src, width, track) && [] + Group(src) == Group(src);
      assert Encode(src, width, track) == Group(src) + tail;
      GroupRoundTrip(src, tail, room);
      if |src| >= 3 {
        RoundTrip(rest, width, if ends then 0 else track + 4, room - 3);
        if ends {
          DecodeStep(tail, room - 3);
          assert tail[1..] == next;
        } else {
          assert tail == next;
        }
        assert src[..3] + rest == src;
      }
    }
  }

  // Without line breaks the armor is four characters for every three bytes
  // begun, which fits the buffer that encode_base64 allocates.
  lemma {:induction false} EncodedLength(src: seq<byte>, track: nat)
    ensures |Encode(src, 0, track)| == 4 * ((|src| + 2) / 3) <= |src| * 4 / 3 + 3
    decreases |src|
  {
    hide Group, Encode;
    if src == [] {
      EncodeNothing(0, track);
    } else {
      EncodeStep(src, 0, track, []);
      EncodedLength(Rest(src), track + 4);
    }
  }

  // The buffer that decode_base64 allocates always has room.
  lemma {:induction false} RoomSuffices(src: seq<byte>, room: nat)
    requires 4 * room >= 3 * |src|
    ensures Decode(src, room) != NoRoom
    ensures Decode(src, room).Bytes? ==> 4 * |Decode(src, room).bytes| <= 3 * |src|
    decreases |src|
  {
    if src != [] && src[0] == NEWLINE {
      RoomSuffices(src[1..], room);
    } else if |src| >= 4 && room >= 3 {
      RoomSuffices(src[4..], room - 3);
    }
  }

  // The alphabet of section 5: '-' for '+' and '_' for '/'.
  function UrlSafe(src: seq<byte>): (u: seq<byte>)
    ensures |u| == |src|
  {
    seq(|src|, i requires 0 <= i < |src| =>
      if src[i] == 43 then 45 else if src[i] == 47 then 95 else src[i])
  }

  lemma {:induction false} UrlSafeDecodes(src: seq<byte>, room: nat)
    ensures Decode(UrlSafe(src), room) == Decode(src, room)
    decreases |src|
  {
    hide Decode, DecodeBits;
    var u := UrlSafe(src);
    if src == [] {
      assert u == [];
    } else {
      DecodeStep(src, room);
      DecodeStep(u, room);
      if src[0] == NEWLINE {
        UrlSafeDecodes(src[1..], room);
        assert u[1..] == UrlSafe(src[1..]);
      } else if |src| >= 4 {
        SameGroup(src[..4], u[..4]);
        if room >= 3 {
          UrlSafeDecodes(src[4..], room - 3);
          assert u[4..] == UrlSafe(src[4..]);
        }
      }
    }
  }

  lemma SameGroup(g: seq<byte>, u: seq<byte>)
    requires |g| == 4 && u == UrlSafe(g)
    ensures GroupOut(g) == GroupOut(u)
  {
  }

  // ----- The routines -----

  // Store characters until they are all stored or the buffer is full.
  method Put(dst: array<byte>, pos: nat, chars: seq<byte>) returns (next: nat, ok: bool)
    requires pos <= dst.Length
    modifies dst
    ensures ok <==> pos + |chars| <= dst.Length
    ensures ok ==> next == pos + |chars| && dst[..next] == old(dst[..pos]) + chars
  {
    next := pos;
    var i := 0;
    while i < |chars|
      invariant 0 <= i <= |chars| && next == pos + i <= dst.Length
      invariant dst[..next] == old(dst[..pos]) + chars[..i]
    {
      if next >= dst.Length {
        return next, false;
      }
      dst[next] := chars[i];
      next := next + 1;
      i := i + 1;
    }
    assert chars[..i] == chars;
    ok := true;
  }

  // One turn of the encoder: a group, and a line break when the line is full.
  lemma EncodeStep(src: seq<byte>, width: nat, track: nat, had: seq<byte>)
    requires src != []
    ensures var ends := width != 0 && track + 4 == width;
      had + Encode(src, width, track) ==
      had + Group(src) + (if ends then [NEWLINE] else []) + Encode(Rest(src), width, if ends then 0 else track + 4)
  {
  }

  // spec_armor_line_break; failing means -ERANGE.
  method ArmorLineBreak(dst: array<byte>, src: seq<byte>, lineWidth: nat) returns (outLen: nat, ok: bool)
    modifies dst
    ensures ok <==> |Encode(src, lineWidth, 0)| <= dst.Length
    ensures ok ==> outLen == |Encode(src, lineWidth, 0)| && dst[..outLen] == Encode(src, lineWidth, 0)
  {
    hide EncodeBits, Encode, Group;
    outLen := 0;
    var trackLine: nat := 0;
    var p: nat := 0;
    ghost var all := Encode(src, lineWidth, 0);
    assert src[0..] == src;
    while p < |src|
      invariant p <= |src| && outLen <= dst.Length
      invariant dst[..outLen] + Encode(src[p..], lineWidth, trackLine) == all
    {
      ghost var rest := src[p..];
      var left := if |src| - p < 3 then |src| - p else 3;
      var g := Group(src[p..p + left]);
      GroupOfPrefix(rest, left);
      assert src[p..p + left] == rest[..left] && Rest(rest) == src[p + left..];
      EncodeStep(rest, lineWidth, trackLine, dst[..outLen]);
      p := p + left;
      trackLine := trackLine + 4;
      outLen, ok := Put(dst, outLen, g);
      if !ok {
        return;
      }
      if lineWidth != 0 && trackLine == lineWidth {
        trackLine := 0;
        outLen, ok := Put(dst, outLen, [NEWLINE]);
        if !ok {
          return;
        }
      }
    }
    EncodeNothing(lineWidth, trackLine);
    assert src[p..] == [];
    ok := true;
  }

  lemma GroupOfPrefix(src: seq<byte>, left: nat)
    requires src != [] && left == if |src| < 3 then |src| else 3
    ensures Group(src[..left]) == Group(src)
  {
  }

  lemma EncodeNothing(width: nat, track: nat)
    ensures Encode([], width, track) == []
  {
  }

  // spec_unarmor; Invalid means -EINVAL and NoRoom means -ERANGE.
  method Unarmor(dst: array<byte>, src: seq<byte>) returns (outLen: nat, result: Decoded)
    modifies dst
    ensures result == Decode(src, dst.Length)
    ensures result.Bytes? ==> outLen == |result.bytes| <= dst.Length && dst[..outLen] == result.bytes
  {
    hide DecodeBits, Decode, GroupOut;
    outLen := 0;
    var p: nat := 0;
    assert src[0..] == src;
    while p < |src|
      invariant p <= |src| && outLen <= dst.Length
      invariant Decode(src, dst.Length) == Prepend(dst[..outLen], Decode(src[p..], dst.Length - outLen))
    {
      ghost var rest := src[p..];
      DecodeStep(rest, dst.Length - outLen);
      if src[p] == NEWLINE {
        p := p + 1;
        continue;
      }
      if p + 4 > |src| {
        return outLen, Invalid;
      }
      var group := src[p..p + 4];
      assert group == rest[..4] && rest[4..] == src[p + 4..];
      ghost var had, room: nat := dst[..outLen], dst.Length - outLen;
      var out, ends := GroupBytes(group);
      if out == [] {
        return outLen, Invalid;
      }
      var ok;
      outLen, ok := Put(dst, outLen, out);
      if !ok {
        return outLen, NoRoom;
      }
      if ends {
        return outLen, Bytes(dst[..outLen]);
      }
      PrependTwice(had, out, Decode(rest[4..], room - 3));
      p := p + 4;
    }
    DecodeNothing(dst.Length - outLen);
    assert src[p..] == [];
    result := Bytes(dst[..outLen]);
  }

  lemma PrependTwice(a: seq<byte>, b: seq<byte>, d: Decoded)
    ensures Prepend(a, Prepend(b, d)) == Prepend(a + b, d)
  {
    if d.Bytes? {
      assert a + (b + d.bytes) == a + b + d.bytes;
    }
  }

  // The bytes of one group of four characters, none when it is malformed, and
  // whether padding ends the text here.
  ghost function GroupOut(g: seq<byte>): (r: (seq<byte>, bool))
    requires |g| == 4
    ensures |r.0| <= 3 && (r.0 != [] && !r.1 ==> |r.0| == 3)
  {
    var a, b, c, d := DecodeBits(g[0]), DecodeBits(g[1]), DecodeBits(g[2]), DecodeBits(g[3]);
    if a < 0 || b < 0 || c < 0 || d < 0 then ([], false)
    else if g[2] == PAD then ([a * 4 + b / 16], true)
    else if g[3] == PAD then ([a * 4 + b / 16, b % 16 * 16 + c / 4], true)
    else ([a * 4 + b / 16, b % 16 * 16 + c / 4, c % 4 * 64 + d], false)
  }

  method GroupBytes(g: seq<byte>) returns (out: seq<byte>, ends: bool)
    requires |g| == 4
    ensures (out, ends) == GroupOut(g)
  {
    var a, b, c, d := DecodeBits(g[0]), DecodeBits(g[1]), DecodeBits(g[2]), DecodeBits(g[3]);
    if a < 0 || b < 0 || c < 0 || d < 0 {
      return [], false;
    }
    var x: byte, y: byte, z: byte := a * 4 + b / 16, b % 16 * 16 + c / 4, c % 4 * 64 + d;
    if g[2] == PAD {
      return [x], true;
    }
    if g[3] == PAD {
      return [x, y], true;
    }
    return [x, y, z], false;
  }

  lemma DecodeStep(src: seq<byte>, room: nat)
    requires src != []
    ensures src[0] == NEWLINE ==> Decode(src, room) == Decode(src[1..], room)
    ensures src[0] != NEWLINE && |src| < 4 ==> Decode(src, room) == Invalid
    ensures src[0] != NEWLINE && |src| >= 4 ==>
      var (out, ends) := GroupOut(src[..4]);
      Decode(src, room) ==
        if out == [] then Invalid
        else if |out| > room then NoRoom
        else if ends then Bytes(out)
        else Prepend(out, Decode(src[4..], room - 3))
  {
  }

  lemma DecodeNothing(room: nat)
    ensures Decode([], room) == Bytes([])
  {
  }
}
