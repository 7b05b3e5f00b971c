/** The base64 decoder of the update protocol, against RFC 4648 section 4. */
module Base64 {
  import opened Common

  // `base64_value`: the six-bit value of a character, or -1 outside the alphabet.
  function Value(c: char): (v: int)
    ensures -1 <= v < 64
  {
    if 'A' <= c <= 'Z' then c as int - 'A' as int
    else if 'a' <= c <= 'z' then c as int - 'a' as int + 26
    else if '0' <= c <= '9' then c as int - '0' as int + 52
    else if c == '+' then 62
    else if c == '/' then 63
    else -1
  }

  // The alphabet of RFC 4648, table 1.
  function Symbol(v: int): (c: char)
    requires 0 <= v < 64
    ensures Value(c) == v
  {
    if v < 26 then (v + 'A' as int) as char
    else if v < 52 then (v - 26 + 'a' as int) as char
    else if v < 62 then (v - 52 + '0' as int) as char
    else if v == 62 then '+' else '/'
  }

  lemma SymbolOfValue(c: char)
    requires Value(c) >= 0
    ensures Symbol(Value(c)) == c
  {
  }

  /* ---- Reference encoder (what the host's base64 library produces) ---- */

  // Three bytes make four symbols.
  function Pack(x: byte, y: byte, z: byte): (s: string)
    ensures |s| == 4
  {
    [Symbol(x / 4), Symbol(x % 4 * 16 + y / 16), Symbol(y % 16 * 4 + z / 64), Symbol(z % 64)]
  }

  function Encode(bytes: seq<byte>): (s: string)
    ensures |s| == (|bytes| + 2) / 3 * 4 && |s| % 4 == 0
  {
    if |bytes| == 0 then []
    else if |bytes| == 1 then Pack(bytes[0], 0, 0)[..2] + "=="
    else if |bytes| == 2 then Pack(bytes[0], bytes[1], 0)[..3] + "="
    else Pack(bytes[0], bytes[1], bytes[2]) + Encode(bytes[3..])
  }

  /* ---- Specification of the decoder ---- */

  // The bytes of one group of four characters; only the last group may be padded.
  function Quad(q: string, last: bool): (r: Option<seq<byte>>)
    requires |q| == 4
    ensures r.Some? ==> 1 <= |r.value| <= 3
  {
    var a, b, c, d := Value(q[0]), Value(q[1]), Value(q[2]), Value(q[3]);
    if a < 0 || b < 0 then None
    else if c >= 0 && d >= 0 then Some(Unpack(a, b, c, d))
    else if last && c >= 0 && q[3] == '=' then Some(Unpack(a, b, c, 0)[..2])
    else if last && q[2] == '=' && q[3] == '=' then Some(Unpack(a, b, 0, 0)[..1])
    else None
  }

  // Four sextets make three bytes.
  function Unpack(a: int, b: int, c: int, d: int): (bytes: seq<byte>)
    requires 0 <= a < 64 && 0 <= b < 64 && 0 <= c < 64 && 0 <= d < 64
    ensures |bytes| == 3
  {
    [a * 4 + b / 16, b % 16 * 16 + c / 4, c % 4 * 64 + d]
  }

  function Prepend(prefix: seq<byte>, r: Result<seq<byte>>): Result<seq<byte>> {
    if r.Ok? then Ok(prefix + r.value) else r
  }

  function Quads(s: string, room: nat): Result<seq<byte>>
    requires |s| % 4 == 0
  {
    if s == [] then Ok([])
    else match Quad(s[..4], |s| == 4)
      case None => Err(InvalidArg)
      case Some(bytes) =>
        if |bytes| > room then Err(InvalidSize)
        else Prepend(bytes, Quads(s[4..], room - |bytes|))
  }

  // `decode_base64` into a buffer with `room` bytes.
  function Decode(s: string, room: nat): Result<seq<byte>> {
    if s == [] || |s| % 4 != 0 then Err(InvalidArg) else Quads(s, room)
  }

  /* ---- The decoder as the firmware runs it ---- */

  // One group of four characters: the padded-out sextets and the number of padding characters.
  method ReadQuad(q: string, last: bool) returns (ok: bool, val: array<int>, pad: nat)
    requires |q| == 4
    ensures fresh(val) && val.Length == 4
    ensures ok <==> Quad(q, last).Some?
    ensures ok ==> pad <= 2 && forall k :: 0 <= k < 4 ==> 0 <= val[k] < 64
    ensures ok ==> Quad(q, last).value == Unpack(val[0], val[1], val[2], val[3])[..3 - pad]
  {
    hide Value, Quad, Unpack;
    val, pad, ok := new int[4](_ => 0), 0, false;
    var j := 0;
    while j < 4
      invariant 0 <= pad <= j <= 4 && fresh(val)
      invariant pad > 0 ==> last && pad <= j - 2 && q[j - 1] == '='
      invariant pad == 2 ==> q[2] == '='
      invariant forall k :: 0 <= k < j - pad ==> val[k] == Value(q[k]) >= 0
      invariant forall k :: j - pad <= k < 4 ==> val[k] == 0
    {
      var c := q[j];
      if c == '=' {
        if j < 2 || !last {
          MisplacedPad(q, last, j);
          return;
        }
        pad := pad + 1;
      } else {
        if pad > 0 {
          MisplacedPad(q, last, j - 1);
          return;
        }
        val[j] := Value(c);
        if val[j] < 0 {
          BadSymbol(q, last, j);
          return;
        }
      }
      j := j + 1;
    }
    GoodQuad(q, last, val[0], val[1], val[2], val[3], pad);
    ok := true;
  }

  // Padding too early, before the last group, or followed by anything else.
  lemma MisplacedPad(q: string, last: bool, j: nat)
    requires |q| == 4 && j < 4 && q[j] == '=' && (j < 2 || !last || (j == 2 && q[3] != '='))
    ensures Quad(q, last).None?
  {
    assert Value('=') == -1;
    hide Value, Unpack;
  }

  lemma BadSymbol(q: string, last: bool, j: nat)
    requires |q| == 4 && j < 4 && q[j] != '=' && Value(q[j]) < 0
    ensures Quad(q, last).None?
  {
    hide Value, Unpack;
  }

  lemma GoodQuad(q: string, last: bool, a: int, b: int, c: int, d: int, pad: nat)
    requires |q| == 4 && pad <= 2 && a == Value(q[0]) >= 0 && b == Value(q[1]) >= 0
    requires if pad < 2 then c == Value(q[2]) >= 0 else c == 0 && q[2] == '=' && last
    requires if pad < 1 then d == Value(q[3]) >= 0 else d == 0 && q[3] == '=' && last
    ensures a < 64 && b < 64 && c < 64 && d < 64
    ensures Quad(q, last) == Some(Unpack(a, b, c, d)[..3 - pad])
  {
    assert Value('=') == -1;
    hide Value, Unpack;
    assert Unpack(a, b, c, d)[..3] == Unpack(a, b, c, d);
  }

  // Store the bytes of one group, stopping when the buffer is full.
  method StoreQuad(val: array<int>, pad: nat, dst: array<byte>, at: nat) returns (fits: bool)
    requires val.Length == 4 && pad <= 2 && at <= dst.Length
    requires forall k :: 0 <= k < 4 ==> 0 <= val[k] < 64
    modifies dst
    ensures fits <==> at + 3 - pad <= dst.Length
    ensures fits ==>
              dst[..at + 3 - pad]
              == old(dst[..at]) + Unpack(old(val[0]), old(val[1]), old(val[2]), old(val[3]))[..3 - pad]
  {
    var a, b, c, d := val[0], val[1], val[2], val[3];
    var out := at;
    if out >= dst.Length {
      return false;
    }
    dst[out] := a * 4 + b / 16;
    out := out + 1;
    if pad < 2 {
      if out >= dst.Length {
        return false;
      }
      dst[out] := b % 16 * 16 + c / 4;
      out := out + 1;
    }
    if pad < 1 {
      if out >= dst.Length {
        return false;
      }
      dst[out] := c % 4 * 64 + d;
      out := out + 1;
    }
    fits := true;
  }

  method DecodeBase64(src: string, dst: array<byte>) returns (err: EspErr, outLen: nat)
    modifies dst
    ensures err == EspOk ==> outLen <= dst.Length && Decode(src, dst.Length) == Ok(dst[..outLen])
    ensures err != EspOk ==> Decode(src, dst.Length) == Err(err)
  {
    hide Value, Quad, Unpack, Quads, Prepend;
    if |src| == 0 || |src| % 4 != 0 {
      return InvalidArg, 0;
    }

    var out := 0;
    var i := 0;
    assert src[0..] == src && dst[..0] == [];
    PrependNothing(Quads(src, dst.Length));
    assert Decode(src, dst.Length) == Prepend(dst[..0], Quads(src[0..], dst.Length));
    hide Decode;
    while i < |src|
      invariant 0 <= i <= |src| && i % 4 == 0 && 0 <= out <= dst.Length
      invariant Decode(src, dst.Length) == Prepend(dst[..out], Quads(src[i..], dst.Length - out))
    {
      ghost var done := dst[..out];
      NextQuad(done, src, i, dst.Length - out);
      var ok, val, pad := ReadQuad(src[i..i + 4], i + 4 == |src|);
      if !ok {
        return InvalidArg, 0;
      }
      var fits := StoreQuad(val, pad, dst, out);
      if !fits {
        return InvalidSize, 0;
      }
      out := out + 3 - pad;
      i := i + 4;
    }
    assert src[i..] == [];
    NoMoreQuads(dst[..out], dst.Length - out);
    err, outLen := EspOk, out;
  }

  // One turn of the decoding loop, on the specification.
  lemma NextQuad(done: seq<byte>, src: string, i: nat, room: nat)
    requires i + 4 <= |src| && |src| % 4 == 0 && i % 4 == 0
    ensures var q := Quad(src[i..i + 4], i + 4 == |src|);
            Prepend(done, Quads(src[i..], room))
            == if q.None? then Err(InvalidArg)
               else if |q.value| > room then Err(InvalidSize)
               else Prepend(done + q.value, Quads(src[i + 4..], room - |q.value|))
  {
    assert src[i..][..4] == src[i..i + 4] && src[i..][4..] == src[i + 4..];
    var q := Quad(src[i..i + 4], i + 4 == |src|);
    if q.Some? && |q.value| <= room {
      PrependTwice(done, q.value, Quads(src[i + 4..], room - |q.value|));
    }
  }

  lemma NoMoreQuads(done: seq<byte>, room: nat)
    ensures Prepend(done, Quads([], room)) == Ok(done)
  {
    assert done + [] == done;
  }

  lemma PrependNothing(r: Result<seq<byte>>)
    ensures Prepend([], r) == r
  {
    if r.Ok? {
      assert [] + r.value == r.value;
    }
  }

  lemma PrependTwice(p: seq<byte>, q: seq<byte>, r: Result<seq<byte>>)
    ensures Prepend(p, Prepend(q, r)) == Prepend(p + q, r)
  {
    if r.Ok? {
      assert p + (q + r.value) == p + q + r.value;
    }
  }

  /* ---- What the decoder means ---- */

  // Decoding inverts the standard encoding, whenever the buffer has room.
  lemma {:induction false} DecodeEncode(bytes: seq<byte>, room: nat)
    requires bytes != [] && |bytes| <= room
    ensures Decode(Encode(bytes), room) == Ok(bytes)
  {
    hide Quad, Pack, Value;
    QuadsEncode(bytes, room);
  }

  // The symbols of three bytes with these sextets.
  lemma PackIs(x: byte, y: byte, z: byte, a: int, b: int, c: int, d: int)
    requires x / 4 == a && x % 4 * 16 + y / 16 == b && y % 16 * 4 + z / 64 == c && z % 64 == d
    ensures 0 <= a < 64 && 0 <= b < 64 && 0 <= c < 64 && 0 <= d < 64
    ensures Pack(x, y, z) == [Symbol(a), Symbol(b), Symbol(c), Symbol(d)]
  {
    hide Value, Symbol;
  }

  // Regrouping bits loses nothing, in either direction.
  lemma PackUnpack(a: int, b: int, c: int, d: int)
    requires 0 <= a < 64 && 0 <= b < 64 && 0 <= c < 64 && 0 <= d < 64
    ensures var v := Unpack(a, b, c, d);
            && Pack(v[0], v[1], v[2]) == [Symbol(a), Symbol(b), Symbol(c), Symbol(d)]
  {
    hide Value, Symbol, Pack, Unpack;
    var x, y, z := Octets(a, b, c, d);
    PackIs(x, y, z, a, b, c, d);
  }

  lemma PackUnpackTwo(a: int, b: int, c: int)
    requires 0 <= a < 64 && 0 <= b < 64 && 0 <= c < 64
    ensures var v := Unpack(a, b, c, 0);
            Pack(v[0], v[1], 0)[..3] == [Symbol(a), Symbol(b), Symbol(c - c % 4)]
  {
    hide Value, Symbol, Pack, Unpack;
    var x, y, z := Octets(a, b, c, 0);
    PackIs(x, y, 0, a, b, c - c % 4, 0);
  }

  lemma PackUnpackOne(a: int, b: int)
    requires 0 <= a < 64 && 0 <= b < 64
    ensures Pack(Unpack(a, b, 0, 0)[0], 0, 0)[..2] == [Symbol(a), Symbol(b - b % 16)]
  {
    hide Value, Symbol, Pack, Unpack;
    var x, y, z := Octets(a, b, 0, 0);
    PackIs(x, 0, 0, a, b - b % 16, 0, 0);
  }

  lemma Octets(a: int, b: int, c: int, d: int) returns (x: byte, y: byte, z: byte)
    requires 0 <= a < 64 && 0 <= b < 64 && 0 <= c < 64 && 0 <= d < 64
    ensures Unpack(a, b, c, d) == [x, y, z]
    ensures x / 4 == a && x % 4 * 16 + y / 16 == b && y % 16 * 4 + z / 64 == c && z % 64 == d
    ensures x % 4 * 16 == b - b % 16 && y % 16 * 4 == c - c % 4
  {
    x, y, z := a * 4 + b / 16, b % 16 * 16 + c / 4, c % 4 * 64 + d;
  }

  lemma Sextets(x: byte, y: byte, z: byte)
    ensures var a, b, c, d := x / 4, x % 4 * 16 + y / 16, y % 16 * 4 + z / 64, z % 64;
            && 0 <= a < 64 && 0 <= b < 64 && 0 <= c < 64 && 0 <= d < 64
            && a * 4 + b / 16 == x && b % 16 * 16 + c / 4 == y && c % 4 * 64 + d == z
  {
  }

  lemma UnpackPack(x: byte, y: byte, z: byte)
    ensures var p := Pack(x, y, z);
            && (forall k :: 0 <= k < 4 ==> Value(p[k]) >= 0)
            && Unpack(Value(p[0]), Value(p[1]), Value(p[2]), Value(p[3])) == [x, y, z]
            && (z == 0 ==> Value(p[3]) == 0) && (y == z == 0 ==> Value(p[2]) == 0)
  {
    hide Value, Symbol, Pack;
    Sextets(x, y, z);
    PackIs(x, y, z, x / 4, x % 4 * 16 + y / 16, y % 16 * 4 + z / 64, z % 64);
  }

  lemma QuadEncode(bytes: seq<byte>, last: bool)
    requires 1 <= |bytes| <= 3 && (last || |bytes| == 3)
    ensures |Encode(bytes)| == 4
    ensures Quad(Encode(bytes), last) == Some(bytes)
  {
    if |bytes| == 1 {
      QuadEncodeOne(bytes);
    } else if |bytes| == 2 {
      QuadEncodeTwo(bytes);
    } else {
      hide Value, Symbol, Pack, Unpack;
      UnpackPack(bytes[0], bytes[1], bytes[2]);
      assert Encode(bytes) == Pack(bytes[0], bytes[1], bytes[2]) + Encode([]);
      assert bytes == [bytes[0], bytes[1], bytes[2]];
    }
  }

  lemma QuadEncodeTwo(bytes: seq<byte>)
    requires |bytes| == 2
    ensures Quad(Encode(bytes), true) == Some(bytes)
  {
    hide Value, Symbol, Pack, Unpack, Quad;
    UnpackPack(bytes[0], bytes[1], 0);
    var p := Pack(bytes[0], bytes[1], 0);
    assert Encode(bytes) == [p[0], p[1], p[2], '='];
    QuadOfTwo(p[0], p[1], p[2]);
    assert bytes == [bytes[0], bytes[1], 0][..2];
  }

  lemma QuadOfTwo(a: char, b: char, c: char)
    requires Value(a) >= 0 && Value(b) >= 0 && Value(c) >= 0
    ensures Quad([a, b, c, '='], true) == Some(Unpack(Value(a), Value(b), Value(c), 0)[..2])
  {
    assert Value('=') == -1;
    hide Value, Unpack;
  }

  lemma QuadEncodeOne(bytes: seq<byte>)
    requires |bytes| == 1
    ensures Quad(Encode(bytes), true) == Some(bytes)
  {
    hide Value, Symbol, Pack, Unpack, Quad;
    UnpackPack(bytes[0], 0, 0);
    var p := Pack(bytes[0], 0, 0);
    assert Encode(bytes) == [p[0], p[1], '=', '='];
    QuadOfOne(p[0], p[1]);
    assert bytes == [bytes[0], 0, 0][..1];
  }

  lemma QuadOfOne(a: char, b: char)
    requires Value(a) >= 0 && Value(b) >= 0
    ensures Quad([a, b, '=', '='], true) == Some(Unpack(Value(a), Value(b), 0, 0)[..1])
  {
    assert Value('=') == -1;
    hide Value, Unpack;
  }

  // The encoding of a group of three bytes, or fewer at the end, comes first.
  lemma EncodeSplits(bytes: seq<byte>)
    requires bytes != []
    ensures var n := Min(3, |bytes|);
            Encode(bytes) == Encode(bytes[..n]) + Encode(bytes[n..]) && |Encode(bytes[..n])| == 4
  {
    hide Pack, Value;
    var n := Min(3, |bytes|);
    if |bytes| <= 3 {
      assert bytes[..n] == bytes && bytes[n..] == [];
      assert Encode(bytes) + [] == Encode(bytes);
    } else {
      EncodeAppend(bytes[..3], bytes[3..]);
      assert bytes[..3] + bytes[3..] == bytes;
    }
  }

  lemma {:induction false} QuadsEncode(bytes: seq<byte>, room: nat)
    requires |bytes| <= room
    ensures Quads(Encode(bytes), room) == Ok(bytes)
    decreases |bytes|
  {
    hide Quad, Pack, Value, Encode;
    if bytes == [] {
      assert |Encode(bytes)| == 0;
    } else {
      var n := Min(3, |bytes|);
      var head, tail := bytes[..n], bytes[n..];
      EncodeSplits(bytes);
      QuadEncode(head, |bytes| <= 3);
      QuadsEncode(tail, room - n);
      var s := Encode(bytes);
      assert s[..4] == Encode(head) && s[4..] == Encode(tail);
      assert bytes == head + tail;
    }
  }

  // How many padding characters end the string.
  function Pad(s: string): (p: nat)
    ensures p <= 2 && p <= |s|
  {
    if |s| >= 2 && s[|s| - 1] == '=' && s[|s| - 2] == '=' then 2
    else if |s| >= 1 && s[|s| - 1] == '=' then 1
    else 0
  }

  // RFC 4648 section 4: whole groups over the alphabet, padding only at the very end.
  ghost predicate WellPadded(s: string) {
    |s| > 0 && |s| % 4 == 0 && forall k :: 0 <= k < |s| - Pad(s) ==> Value(s[k]) >= 0
  }

  function DecodedLength(s: string): int {
    |s| / 4 * 3 - Pad(s)
  }

  // The decoder accepts exactly the well-padded strings whose bytes fit, and never miscounts them.
  lemma {:induction false} AcceptsExactly(s: string, room: nat)
    ensures Decode(s, room).Ok? <==> WellPadded(s) && DecodedLength(s) <= room
    ensures Decode(s, room).Ok? ==> |Decode(s, room).value| == DecodedLength(s) >= 1
    ensures WellPadded(s) && DecodedLength(s) > room ==> Decode(s, room) == Err(InvalidSize)
  {
    if s != [] && |s| % 4 == 0 {
      QuadsAccept(s, room);
    }
  }

  // A text is refused as malformed or as too long for the buffer, and in no other way.
  lemma {:induction false} RefusedHow(s: string, room: nat)
    ensures Decode(s, room).Err? ==> Decode(s, room).error == InvalidArg || Decode(s, room).error == InvalidSize
  {
    if s != [] && |s| % 4 == 0 {
      QuadsRefusedHow(s, room);
    }
  }

  lemma {:induction false} QuadsRefusedHow(s: string, room: nat)
    requires |s| % 4 == 0
    ensures Quads(s, room).Err? ==> Quads(s, room).error == InvalidArg || Quads(s, room).error == InvalidSize
    decreases |s|
  {
    hide Value, Unpack;
    if s != [] {
      var q := Quad(s[..4], |s| == 4);
      assert |s[4..]| == |s| - 4;
      if q.Some? && |q.value| <= room {
        QuadsRefusedHow(s[4..], room - |q.value|);
      }
    }
  }

  lemma {:induction false} QuadsAccept(s: string, room: nat)
    requires s != [] && |s| % 4 == 0
    ensures Quads(s, room).Ok? <==> WellPadded(s) && DecodedLength(s) <= room
    ensures Quads(s, room).Ok? ==> |Quads(s, room).value| == DecodedLength(s) >= 1
    ensures WellPadded(s) && DecodedLength(s) > room ==> Quads(s, room) == Err(InvalidSize)
    decreases |s|
  {
    var t := s[4..];
    if |s| == 4 {
      assert s[..4] == s && t == [];
    } else {
      assert Pad(t) == Pad(s);
      assert forall k :: 0 <= k < |t| ==> t[k] == s[k + 4];
      assert WellPadded(s) <==> Quad(s[..4], false).Some? && WellPadded(t) by {
        if WellPadded(t) && Quad(s[..4], false).Some? {
          forall k | 0 <= k < |s| - Pad(s) ensures Value(s[k]) >= 0 {
            if k >= 4 { assert s[k] == t[k - 4]; }
          }
        }
      }
      if Quad(s[..4], false).Some? && 3 <= room {
        QuadsAccept(t, room - 3);
      } else {
        QuadsAccept(t, 0);
      }
    }
  }

  // RFC 4648 section 3.5: the bits a padded last group does not use.
  ghost predicate UnusedBitsZero(s: string)
    requires WellPadded(s)
  {
    && (Pad(s) == 1 ==> Value(s[|s| - 2]) % 4 == 0)
    && (Pad(s) == 2 ==> Value(s[|s| - 3]) % 16 == 0)
  }

  // Re-encoding what was decoded gives the text back exactly when the unused bits are zero.
  lemma {:induction false} EncodeDecode(s: string, room: nat)
    requires WellPadded(s) && DecodedLength(s) <= room
    ensures Decode(s, room).Ok?
    ensures Encode(Decode(s, room).value) == s <==> UnusedBitsZero(s)
  {
    AcceptsExactly(s, room);
    QuadsReencode(s, room);
  }

  // Peeling the first group off a longer well-padded string.
  lemma PeelQuad(s: string, room: nat)
    requires WellPadded(s) && DecodedLength(s) <= room && |s| > 4
    ensures var t := s[4..];
            && |t| % 4 == 0 && WellPadded(t) && DecodedLength(t) <= room - 3 && room >= 3 && Pad(t) == Pad(s)
            && (UnusedBitsZero(t) <==> UnusedBitsZero(s))
            && Quad(s[..4], false).Some? && |Quad(s[..4], false).value| == 3
            && Quads(s, room) == Prepend(Quad(s[..4], false).value, Quads(t, room - 3))
  {
    var t, q := s[4..], s[..4];
    assert Pad(t) == Pad(s);
    forall k | 0 <= k < |t| - Pad(t) ensures Value(t[k]) >= 0 { assert t[k] == s[k + 4]; }
    forall k | 0 <= k < 4 ensures Value(q[k]) >= 0 { assert q[k] == s[k]; }
    assert t[|t| - 2] == s[|s| - 2] && t[|t| - 3] == s[|s| - 3];
  }

  lemma {:induction false} QuadsReencode(s: string, room: nat)
    requires WellPadded(s) && DecodedLength(s) <= room
    ensures Quads(s, room).Ok?
    ensures Encode(Quads(s, room).value) == s <==> UnusedBitsZero(s)
    decreases |s|
  {
    hide Quad, Quads, Encode, UnusedBitsZero, WellPadded, DecodedLength, Pad, Value, Prepend;
    WholeQuads(s);
    if |s| == 4 {
      LastQuad(s, room);
    } else {
      var t := s[4..];
      PeelQuad(s, room);
      QuadsReencode(t, room - 3);
      FirstQuad(s);
      var head, tail := Quad(s[..4], false).value, Quads(t, room - 3).value;
      assert Prepend(head, Ok(tail)) == Ok(head + tail) by { PrependOk(head, tail); }
      EncodeAppend(head, tail);
      SameTail(s[..4], Encode(tail), t);
      assert s == s[..4] + t;
    }
  }

  lemma PrependOk(head: seq<byte>, tail: seq<byte>)
    ensures Prepend(head, Ok(tail)) == Ok(head + tail)
  {
  }

  lemma WholeQuads(s: string)
    requires WellPadded(s)
    ensures |s| >= 4 && |s| % 4 == 0
  {
  }

  // A last group on its own.
  lemma LastQuad(s: string, room: nat)
    requires WellPadded(s) && |s| == 4 && DecodedLength(s) <= room
    ensures Quads(s, room).Ok?
    ensures Encode(Quads(s, room).value) == s <==> UnusedBitsZero(s)
  {
    QuadsAccept(s, room);
    QuadReencode(s);
    hide Quad, Encode, UnusedBitsZero, WellPadded, DecodedLength, Value;
    assert s[..4] == s && s[4..] == [];
    var bytes := Quad(s, true).value;
    assert bytes + [] == bytes;
  }

  // The first group of a longer string is re-encoded as it was.
  lemma FirstQuad(s: string)
    requires WellPadded(s) && |s| > 4
    ensures Quad(s[..4], false).Some? && Encode(Quad(s[..4], false).value) == s[..4]
  {
    hide Value, Quad, Encode;
    forall k | 0 <= k < 4 ensures Value(s[..4][k]) >= 0 {
      assert s[..4][k] == s[k];
    }
    QuadSymbols(s[..4]);
  }

  lemma SameTail<T>(p: seq<T>, a: seq<T>, b: seq<T>)
    ensures p + a == p + b <==> a == b
  {
    if p + a == p + b {
      assert a == (p + a)[|p|..] == (p + b)[|p|..] == b;
    }
  }

  lemma EncodeAppend(head: seq<byte>, tail: seq<byte>)
    requires |head| == 3
    ensures Encode(head + tail) == Encode(head) + Encode(tail)
  {
    hide Pack, Value;
    var all := head + tail;
    assert head[3..] == [] && all[3..] == tail;
    assert Encode(head) + Encode(all[3..]) == Encode(all);
  }

  lemma QuadSymbols(q: string)
    requires |q| == 4 && forall k :: 0 <= k < 4 ==> Value(q[k]) >= 0
    ensures Quad(q, false).Some? && |Quad(q, false).value| == 3
    ensures Encode(Quad(q, false).value) == q
  {
    EncodeThree(Value(q[0]), Value(q[1]), Value(q[2]), Value(q[3]));
    SymbolOfValue(q[0]);
    SymbolOfValue(q[1]);
    SymbolOfValue(q[2]);
    SymbolOfValue(q[3]);
  }

  lemma EncodeThree(a: int, b: int, c: int, d: int)
    requires 0 <= a < 64 && 0 <= b < 64 && 0 <= c < 64 && 0 <= d < 64
    ensures Encode(Unpack(a, b, c, d)) == [Symbol(a), Symbol(b), Symbol(c), Symbol(d)]
  {
    PackUnpack(a, b, c, d);
    var v := Unpack(a, b, c, d);
    assert Encode(v) == Pack(v[0], v[1], v[2]) + Encode([]);
  }

  lemma SymbolIs(v: int, c: char)
    requires 0 <= v < 64 && Value(c) >= 0
    ensures Symbol(v) == c <==> v == Value(c)
  {
    SymbolOfValue(c);
  }

  lemma QuadReencode(q: string)
    requires WellPadded(q) && |q| == 4
    ensures Quad(q, true).Some?
    ensures Encode(Quad(q, true).value) == q <==> UnusedBitsZero(q)
  {
    if Pad(q) == 0 {
      QuadSymbols(q);
    } else if Pad(q) == 1 {
      QuadReencodeOne(q);
    } else {
      QuadReencodeTwo(q);
    }
  }

  lemma QuadReencodeOne(q: string)
    requires |q| == 4 && Value(q[0]) >= 0 && Value(q[1]) >= 0 && Value(q[2]) >= 0 && q[3] == '='
    ensures Quad(q, true).Some?
    ensures Encode(Quad(q, true).value) == q <==> Value(q[2]) % 4 == 0
  {
    hide Value, Symbol, Encode, Unpack, Quad;
    var c := Value(q[2]);
    QuadOfTwo(q[0], q[1], q[2]);
    EncodeTwo(Value(q[0]), Value(q[1]), c);
    SymbolOfValue(q[0]);
    SymbolOfValue(q[1]);
    SymbolIs(c - c % 4, q[2]);
    assert q == [q[0], q[1], q[2], '='];
  }

  lemma EncodeTwo(a: int, b: int, c: int)
    requires 0 <= a < 64 && 0 <= b < 64 && 0 <= c < 64
    ensures Encode(Unpack(a, b, c, 0)[..2]) == [Symbol(a), Symbol(b), Symbol(c - c % 4), '=']
  {
    PackUnpackTwo(a, b, c);
  }

  lemma QuadReencodeTwo(q: string)
    requires |q| == 4 && Value(q[0]) >= 0 && Value(q[1]) >= 0 && q[2] == '=' && q[3] == '='
    ensures Quad(q, true).Some?
    ensures Encode(Quad(q, true).value) == q <==> Value(q[1]) % 16 == 0
  {
    hide Value, Symbol, Encode, Unpack, Quad;
    var b := Value(q[1]);
    QuadOfOne(q[0], q[1]);
    EncodeOne(Value(q[0]), b);
    SymbolOfValue(q[0]);
    SymbolIs(b - b % 16, q[1]);
    assert q == [q[0], q[1], '=', '='];
  }

  lemma EncodeOne(a: int, b: int)
    requires 0 <= a < 64 && 0 <= b < 64
    ensures Encode(Unpack(a, b, 0, 0)[..1]) == [Symbol(a), Symbol(b - b % 16), '=', '=']
  {
    PackUnpackOne(a, b);
  }
}
