/** The textual form of a SHA-256 digest. The hash itself stays a parameter of the model. */
module Sha256Hex {
  import opened Common

  // The 32 bytes SHA-256 (FIPS 180-4) yields.
  type Digest = d: seq<byte> | |d| == 32 witness seq(32, _ => 0)

  function HexDigit(c: char): (v: int)
    ensures -1 <= v < 16
  {
    if '0' <= c <= '9' then c as int - '0' as int
    else if 'a' <= c <= 'f' then c as int - 'a' as int + 10
    else if 'A' <= c <= 'F' then c as int - 'A' as int + 10
    else -1
  }

  // Two characters a byte, or nothing when some character is not a hexadecimal digit.
  function HexBytes(hex: string): (r: Option<seq<byte>>)
    requires |hex| % 2 == 0
    ensures r.Some? ==> |r.value| * 2 == |hex|
  {
    if hex == [] then Some([])
    else
      var hi, lo := HexDigit(hex[0]), HexDigit(hex[1]);
      if hi < 0 || lo < 0 then None
      else match HexBytes(hex[2..])
        case None => None
        case Some(rest) => Some([hi * 16 + lo] + rest)
  }

  function ParseSha256(hex: string): Option<Digest> {
    if |hex| != 64 then None
    else match HexBytes(hex)
      case None => None
      case Some(d) => Some(d)
  }

  method ParseSha256Into(hex: string, out: array<byte>) returns (err: EspErr)
    requires out.Length == 32
    modifies out
    ensures err == EspOk <==> ParseSha256(hex).Some?
    ensures err == EspOk ==> ParseSha256(hex) == Some(out[..])
    ensures err != EspOk ==> err == InvalidArg
  {
    hide HexBytes, HexDigit;
    if |hex| != 64 {
      return InvalidArg;
    }
    var i := 0;
    assert hex[0..] == hex && out[..0] == [];
    assert HexBytes(hex).Some? ==> [] + HexBytes(hex).value == HexBytes(hex).value;
    while i < 32
      invariant 0 <= i <= 32
      invariant HexBytes(hex) == After(out[..i], HexBytes(hex[i * 2..]))
    {
      HexStep(hex, i * 2, out[..i]);
      var hi, lo := HexDigit(hex[i * 2]), HexDigit(hex[i * 2 + 1]);
      if hi < 0 || lo < 0 {
        return InvalidArg;
      }
      ghost var before := out[..i];
      out[i] := hi * 16 + lo;
      i := i + 1;
      assert out[..i] == before + [hi * 16 + lo];
    }
    HexDone(hex[64..], out[..32]);
    assert out[..32] == out[..];
    err := EspOk;
  }

  function After(before: seq<byte>, r: Option<seq<byte>>): Option<seq<byte>> {
    if r.Some? then Some(before + r.value) else None
  }

  lemma HexStep(hex: string, i: nat, before: seq<byte>)
    requires |hex| % 2 == 0 && i % 2 == 0 && i + 2 <= |hex|
    ensures var hi, lo := HexDigit(hex[i]), HexDigit(hex[i + 1]);
            After(before, HexBytes(hex[i..]))
            == if hi < 0 || lo < 0 then None else After(before + [hi * 16 + lo], HexBytes(hex[i + 2..]))
  {
    assert hex[i..][2..] == hex[i + 2..];
    var hi, lo := HexDigit(hex[i]), HexDigit(hex[i + 1]);
    var rest := HexBytes(hex[i + 2..]);
    if hi >= 0 && lo >= 0 && rest.Some? {
      assert before + ([hi * 16 + lo] + rest.value) == before + [hi * 16 + lo] + rest.value;
    }
  }

  lemma HexDone(hex: string, before: seq<byte>)
    requires hex == []
    ensures After(before, HexBytes(hex)) == Some(before)
  {
    assert before + [] == before;
  }

  /* ---- The text the host sends: Python's `hexdigest()` ---- */

  function HexChar(v: int): char
    requires 0 <= v < 16
  {
    if v < 10 then (v + '0' as int) as char else (v - 10 + 'a' as int) as char
  }

  function Hex(bytes: seq<byte>): (s: string)
    ensures |s| == 2 * |bytes|
  {
    if bytes == [] then [] else [HexChar(bytes[0] / 16), HexChar(bytes[0] % 16)] + Hex(bytes[1..])
  }

  function LowerChar(c: char): char {
    if 'A' <= c <= 'Z' then (c as int + 32) as char else c
  }

  function Lower(s: string): (t: string)
    ensures |t| == |s|
  {
    if s == [] then [] else [LowerChar(s[0])] + Lower(s[1..])
  }

  // A declared digest is accepted exactly when it is that digest's hexadecimal text, in either case.
  lemma {:induction false} ParsesExactly(hex: string, d: Digest)
    ensures ParseSha256(hex) == Some(d) <==> Lower(hex) == Hex(d)
  {
    if |hex| == 64 {
      HexBytesExactly(hex, d);
    }
  }

  lemma {:induction false} HexBytesExactly(hex: string, bytes: seq<byte>)
    requires |hex| == 2 * |bytes|
    ensures HexBytes(hex) == Some(bytes) <==> Lower(hex) == Hex(bytes)
    decreases |hex|
  {
    if hex != [] {
      HexBytesExactly(hex[2..], bytes[1..]);
      LowerPair(hex);
      HexCharExactly(hex[0], bytes[0] / 16);
      HexCharExactly(hex[1], bytes[0] % 16);
      hide Lower, LowerChar, HexDigit, HexChar;
      assert Hex(bytes)[2..] == Hex(bytes[1..]);
      assert bytes == [bytes[0]] + bytes[1..];
    }
  }

  lemma LowerPair(hex: string)
    requires |hex| >= 2
    ensures Lower(hex) == [LowerChar(hex[0]), LowerChar(hex[1])] + Lower(hex[2..])
  {
    hide LowerChar;
    assert hex[1..][1..] == hex[2..];
  }

  lemma HexCharExactly(c: char, v: int)
    requires 0 <= v < 16
    ensures HexDigit(c) == v <==> LowerChar(c) == HexChar(v)
  {
  }
}
