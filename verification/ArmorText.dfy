// The armor told without its routines: the alphabet as a string, the characters of
// a group as digits, and where the line breaks are.
module ArmorText {
  import opened Crc
  import opened Armor

  // The alphabet of section 4 of RFC 4648.
  const UPPER: string := "ABCDEFGHIJKLMNOPQRSTUVWXYZ"
  const LOWER: string := "abcdefghijklmnopqrstuvwxyz"
  const REST: string := "0123456789+/"
  const ALPHABET: string := UPPER + LOWER + REST

  // The 64 characters in order are what the values are encoded as.
  lemma AlphabetIs(c: nat)
    requires c < 64
    ensures |ALPHABET| == 64 && EncodeBits(c) == ALPHABET[c] as nat
  {
    if c < 26 {
      UpperAt(c);
    } else if c < 52 {
      LowerAt(c - 26);
    } else {
      RestAt(c - 52);
    }
  }

  lemma UpperAt(c: nat)
    requires c < 26
    ensures UPPER[c] as nat == 65 + c
  {
    if c < 7 {
    } else if c < 14 {
    } else if c < 20 {
    } else {
    }
  }

  lemma LowerAt(c: nat)
    requires c < 26
    ensures LOWER[c] as nat == 97 + c
  {
    if c < 7 {
    } else if c < 14 {
    } else if c < 20 {
    } else {
    }
  }

  lemma RestAt(c: nat)
    requires c < 12
    ensures REST[c] as nat == if c < 10 then 48 + c else if c == 10 then 43 else 47
  {
  }

  // What a character stands for: its place in the alphabet; '-' and '_' of section
  // 5 stand for 62 and 63, and padding for 0.
  ghost predicate StandsFor(ch: byte, v: nat) {
    || (v < |ALPHABET| && ch == ALPHABET[v] as nat)
    || (ch == '-' as nat && v == 62) || (ch == '_' as nat && v == 63) || (ch == '=' as nat && v == 0)
  }

  // A character decodes to what it stands for, and to nothing when it stands for
  // nothing.
  lemma DecodesTo(ch: byte)
    ensures DecodeBits(ch) >= 0 ==> StandsFor(ch, DecodeBits(ch))
    ensures forall v: nat :: StandsFor(ch, v) ==> DecodeBits(ch) == v
    ensures NEWLINE == '\n' as nat && PAD == '=' as nat
  {
    forall v: nat | StandsFor(ch, v)
      ensures DecodeBits(ch) == v
    {
      if v < |ALPHABET| && ch == ALPHABET[v] as nat {
        AlphabetIs(v);
      }
    }
    if DecodeBits(ch) >= 0 {
      AlphabetIs(DecodeBits(ch));
    }
  }

  // Three bytes as one number of 24 bits.
  function Number(a: nat, b: nat, c: nat): nat {
    a * 65536 + b * 256 + c
  }

  // The bytes of a group as one number, zeros standing for missing bytes.
  function GroupNumber(src: seq<byte>): nat
    requires src != []
  {
    Number(src[0], if |src| > 1 then src[1] else 0, if |src| > 2 then src[2] else 0)
  }

  // Its digits to base 64, the highest first.
  function Digit(n: nat, k: nat): (d: nat)
    requires k < 4
    ensures d < 64
  {
    (if k == 0 then n / 64 / 64 / 64 else if k == 1 then n / 64 / 64 else if k == 2 then n / 64 else n) % 64
  }

  lemma Digits(a: nat, b: nat, c: nat)
    requires a < 256 && b < 256 && c < 256
    ensures var n := Number(a, b, c);
      && Digit(n, 0) == a / 4 && Digit(n, 1) == a % 4 * 16 + b / 16
      && Digit(n, 2) == b % 16 * 4 + c / 64 && Digit(n, 3) == c % 64
  {
    var d1, d2 := a % 4 * 16 + b / 16, b % 16 * 4 + c / 64;
    var m1 := 64 * (a / 4) + d1;
    var m2 := 64 * m1 + d2;
    NumberIs(a, b, c);
    Over64(m2, c % 64);
    Over64(m1, d2);
    Over64(a / 4, d1);
  }

  lemma NumberIs(a: nat, b: nat, c: nat)
    ensures Number(a, b, c) == 64 * (64 * (64 * (a / 4) + (a % 4 * 16 + b / 16)) + (b % 16 * 4 + c / 64)) + c % 64
  {
  }

  lemma Over64(m: nat, d: nat)
    requires d < 64
    ensures (64 * m + d) / 64 == m && (64 * m + d) % 64 == d
  {
  }

  // The digits give the bytes back.
  lemma Undigits(a: nat, b: nat, c: nat)
    requires a < 256 && b < 256 && c < 256
    ensures var n := Number(a, b, c);
      && Digit(n, 0) * 4 + Digit(n, 1) / 16 == a
      && Digit(n, 1) % 16 * 16 + Digit(n, 2) / 4 == b
      && Digit(n, 2) % 4 * 64 + Digit(n, 3) == c
  {
    Digits(a, b, c);
    hide Digit, Number;
  }

  // The characters of a group are the digits of its bytes, as many as are needed,
  // and padding.
  lemma GroupIsDigits(src: seq<byte>, k: nat)
    requires src != [] && k < 4
    ensures |ALPHABET| == 64
    ensures Group(src)[k] == if k <= |src| then ALPHABET[Digit(GroupNumber(src), k)] as nat else '=' as nat
  {
    var b, c := if |src| > 1 then src[1] as nat else 0, if |src| > 2 then src[2] as nat else 0;
    AlphabetIs(Digit(GroupNumber(src), k));
    Digits(src[0], b, c);
    hide EncodeBits, Number, Digit, ALPHABET;
  }

  // Four characters of a text stand for the bytes of the number whose digits they
  // stand for; with padding, for the bytes before it.
  lemma OutIsNumber(g: seq<byte>, a: nat, b: nat, c: nat)
    requires |g| == 4 && a < 256 && b < 256 && c < 256
    requires forall k :: 0 <= k < 4 ==> DecodeBits(g[k]) == Digit(Number(a, b, c), k)
    ensures GroupOut(g) ==
      if g[2] == PAD then ([a], true) else if g[3] == PAD then ([a, b], true) else ([a, b, c], false)
  {
    Undigits(a, b, c);
    var n := Number(a, b, c);
    OutOf(g, Digit(n, 0), Digit(n, 1), Digit(n, 2), Digit(n, 3), a, b, c);
  }

  lemma OutOf(g: seq<byte>, d0: nat, d1: nat, d2: nat, d3: nat, a: byte, b: byte, c: byte)
    requires |g| == 4 && DecodeBits(g[0]) == d0 && DecodeBits(g[1]) == d1
    requires DecodeBits(g[2]) == d2 && DecodeBits(g[3]) == d3
    requires d0 * 4 + d1 / 16 == a && d1 % 16 * 16 + d2 / 4 == b && d2 % 4 * 64 + d3 == c
    ensures GroupOut(g) ==
      if g[2] == PAD then ([a], true) else if g[3] == PAD then ([a, b], true) else ([a, b, c], false)
  {
    hide DecodeBits;
  }

  // Any four digits are those of some three bytes.
  lemma BytesOf(d0: nat, d1: nat, d2: nat, d3: nat) returns (a: nat, b: nat, c: nat)
    requires d0 < 64 && d1 < 64 && d2 < 64 && d3 < 64
    ensures a < 256 && b < 256 && c < 256
    ensures var n := Number(a, b, c); Digit(n, 0) == d0 && Digit(n, 1) == d1 && Digit(n, 2) == d2 && Digit(n, 3) == d3
  {
    a, b, c := d0 * 4 + d1 / 16, d1 % 16 * 16 + d2 / 4, d2 % 4 * 64 + d3;
    Digits(a, b, c);
    hide Digit, Number;
  }

  // ----- Texts -----

  // Without line breaks: group g of the text is made of the bytes from 3 * g on.
  lemma {:induction false} PlainAt(src: seq<byte>, track: nat, g: nat, k: nat)
    requires k < 4 && 4 * g + k < |Encode(src, 0, track)|
    ensures 3 * g < |src| && Encode(src, 0, track)[4 * g + k] == Group(src[3 * g..])[k]
    decreases |src|
  {
    hide Group, Encode;
    if src == [] {
      EncodeNothing(0, track);
    } else {
      PlainStep(src, track);
      if g == 0 {
        assert src[0..] == src;
      } else {
        PlainAt(Rest(src), track + 4, g - 1, k);
        assert Rest(src)[3 * (g - 1)..] == src[3 * g..];
      }
    }
  }

  lemma PlainStep(src: seq<byte>, track: nat)
    requires src != []
    ensures Encode(src, 0, track) == Group(src) + Encode(Rest(src), 0, track + 4)
  {
  }

  lemma {:induction false} TrackIsIdle(src: seq<byte>, track: nat)
    ensures Encode(src, 0, track) == Encode(src, 0, 0)
    decreases |src|
  {
    hide Group;
    if src != [] {
      TrackIsIdle(Rest(src), track + 4);
      TrackIsIdle(Rest(src), 4);
    }
  }

  // A text in lines of so many characters, the first of them shorter; a full line
  // is ended by a line break, also the last.
  function Lines(text: seq<byte>, first: nat, width: nat): seq<byte>
    requires 0 < first <= width
    decreases |text|
  {
    if |text| < first then text else text[..first] + [NEWLINE] + Lines(text[first..], width, width)
  }

  // With a line width that is a multiple of four, the armor is the text without
  // line breaks, in lines of that width.
  lemma {:induction false} BreaksLines(src: seq<byte>, width: nat, track: nat)
    requires width % 4 == 0 && track % 4 == 0 && track < width
    ensures Encode(src, width, track) == Lines(Encode(src, 0, 0), width - track, width)
    decreases |src|
  {
    hide Group;
    if src != [] {
      var rest, g := Encode(Rest(src), 0, 0), Group(src);
      TrackIsIdle(Rest(src), 4);
      assert Encode(src, 0, 0) == g + rest;
      if track + 4 == width {
        BreaksLines(Rest(src), width, 0);
        assert (g + rest)[..4] == g && (g + rest)[4..] == rest;
      } else {
        BreaksLines(Rest(src), width, track + 4);
        LaterLine(g, rest, width - track, width);
      }
    }
  }

  lemma LaterLine(g: seq<byte>, rest: seq<byte>, first: nat, width: nat)
    requires |g| < first <= width
    ensures Lines(g + rest, first, width) == g + Lines(rest, first - |g|, width)
  {
    if |rest| >= first - |g| {
      assert (g + rest)[..first] == g + rest[..first - |g|] && (g + rest)[first..] == rest[first - |g|..];
    }
  }

  // With any other width there are no line breaks at all.
  lemma {:induction false} NoBreaks(src: seq<byte>, width: nat, track: nat)
    requires width % 4 != 0 && track % 4 == 0
    ensures Encode(src, width, track) == Encode(src, 0, 0)
    decreases |src|
  {
    hide Group;
    if src != [] {
      NoBreaks(Rest(src), width, track + 4);
      TrackIsIdle(Rest(src), 4);
    }
  }

  // Groups of four characters that stand for something.
  ghost predicate Known(text: seq<byte>) {
    |text| % 4 == 0 && forall k :: 0 <= k < |text| ==> DecodeBits(text[k]) >= 0
  }

  // Each group of four characters gives its three bytes.
  ghost predicate GroupsGive(text: seq<byte>, bytes: seq<byte>) {
    4 * |bytes| == 3 * |text| &&
    forall g: nat :: 4 * g + 4 <= |text| ==> bytes[3 * g..3 * g + 3] == GroupOut(text[4 * g..4 * g + 4]).0
  }

  // A text without line breaks and padding decodes, to the bytes of its groups,
  // exactly when it is made of groups that stand for something.
  lemma {:induction false} PlainDecodes(text: seq<byte>, room: nat)
    requires 4 * room >= 3 * |text| && forall k :: 0 <= k < |text| ==> text[k] != NEWLINE && text[k] != PAD
    ensures Decode(text, room) == Invalid <==> !Known(text)
    ensures Known(text) ==> Decode(text, room).Bytes? && GroupsGive(text, Decode(text, room).bytes)
    decreases |text|
  {
    hide Decode, DecodeBits, GroupOut;
    if text == [] {
      DecodeNothing(room);
    } else {
      DecodeStep(text, room);
      if |text| >= 4 {
        var g, rest := text[..4], text[4..];
        FullGroup(g);
        PlainDecodes(rest, room - 3);
        KnownOn(text);
        if Known(text) {
          GroupsOn(text, GroupOut(g).0, Decode(rest, room - 3).bytes);
        }
      }
    }
  }

  lemma FullGroup(g: seq<byte>)
    requires |g| == 4 && g[2] != PAD && g[3] != PAD
    ensures if forall k :: 0 <= k < 4 ==> DecodeBits(g[k]) >= 0 then |GroupOut(g).0| == 3 && !GroupOut(g).1
            else GroupOut(g).0 == []
  {
  }

  lemma KnownOn(text: seq<byte>)
    requires |text| >= 4
    ensures Known(text) <==> Known(text[4..]) && forall k :: 0 <= k < 4 ==> DecodeBits(text[..4][k]) >= 0
  {
    hide DecodeBits;
    var rest := text[4..];
    assert forall k :: 4 <= k < |text| ==> text[k] == rest[k - 4];
    assert forall k :: 0 <= k < |rest| ==> rest[k] == text[k + 4];
    assert forall k :: 0 <= k < 4 ==> text[k] == text[..4][k];
    if Known(rest) && forall k :: 0 <= k < 4 ==> DecodeBits(text[..4][k]) >= 0 {
      forall k | 0 <= k < |text|
        ensures DecodeBits(text[k]) >= 0
      {
        assert k < 4 || text[k] == rest[k - 4];
      }
    }
  }

  lemma GroupsOn(text: seq<byte>, out: seq<byte>, bytes: seq<byte>)
    requires |text| >= 4 && GroupsGive(text[4..], bytes) && |out| == 3 && out == GroupOut(text[..4]).0
    ensures GroupsGive(text, out + bytes)
  {
    hide GroupOut;
    var rest := text[4..];
    forall g: nat | 4 * g + 4 <= |text|
      ensures (out + bytes)[3 * g..3 * g + 3] == GroupOut(text[4 * g..4 * g + 4]).0
    {
      if g > 0 {
        assert text[4 * g..4 * g + 4] == rest[4 * (g - 1)..4 * (g - 1) + 4];
        assert (out + bytes)[3 * g..3 * g + 3] == bytes[3 * (g - 1)..3 * (g - 1) + 3];
      }
    }
  }
}
