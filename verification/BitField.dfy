/** Little-endian bit-fields of a CAN payload, by their bit position in the whole message. */
module BitField {
  import opened Common
  import opened Arithmetic

  function Pow2(k: nat): (p: nat)
    ensures p > 0
  {
    if k == 0 then 1 else 2 * Pow2(k - 1)
  }

  // The payload as one number, first byte least significant.
  function LittleEndian(data: seq<byte>): nat {
    if data == [] then 0 else data[0] + 256 * LittleEndian(data[1..])
  }

  // The `width` bits from bit `start` on.
  function Field(data: seq<byte>, start: nat, width: nat): nat {
    LittleEndian(data) / Pow2(start) % Pow2(width)
  }

  lemma {:induction false} Pow2Add(a: nat, b: nat)
    ensures Pow2(a + b) == Pow2(a) * Pow2(b)
  {
    if a > 0 {
      Pow2Add(a - 1, b);
      assert Pow2(a) == 2 * Pow2(a - 1) && Pow2(a + b) == 2 * Pow2(a - 1 + b);
      DoubleFirst(Pow2(a - 1), Pow2(b));
    }
  }

  lemma DoubleFirst(x: int, y: int)
    ensures 2 * x * y == 2 * (x * y)
  {
  }

  // Skipping whole bytes.
  lemma {:induction false} DropBytes(data: seq<byte>, n: nat)
    requires n <= |data|
    ensures LittleEndian(data) / Pow2(8 * n) == LittleEndian(data[n..])
  {
    if n == 0 {
      assert data[0..] == data;
    } else {
      DropBytes(data[1..], n - 1);
      assert data[1..][n - 1..] == data[n..];
      Pow2Add(8, 8 * (n - 1));
      assert Pow2(8) == 256;
      assert LittleEndian(data) / 256 == LittleEndian(data[1..]);
      DivideTwice(LittleEndian(data), 256, Pow2(8 * (n - 1)));
    }
  }

  // A field that starts `shift` bits into byte `n`.
  lemma FieldFrom(data: seq<byte>, n: nat, shift: nat, width: nat)
    requires n <= |data|
    ensures Field(data, 8 * n + shift, width) == LittleEndian(data[n..]) / Pow2(shift) % Pow2(width)
  {
    hide LittleEndian, Pow2;
    DropBytes(data, n);
    Pow2Add(8 * n, shift);
    DivideTwice(LittleEndian(data), Pow2(8 * n), Pow2(shift));
  }

  // The bytes a field of at most 16 bits can touch.
  lemma TwoBytes(data: seq<byte>, n: nat) returns (rest: nat)
    requires n + 1 < |data|
    ensures LittleEndian(data[n..]) == data[n] + 256 * data[n + 1] + 65536 * rest
  {
    assert data[n..][1..] == data[n + 1..];
    rest := LittleEndian(data[n + 1..][1..]);
  }

  lemma OneByte(data: seq<byte>, n: nat) returns (rest: nat)
    requires n < |data|
    ensures LittleEndian(data[n..]) == data[n] + 256 * rest
  {
    rest := LittleEndian(data[n..][1..]);
  }

  lemma SmallPowers()
    ensures Pow2(0) == 1 && Pow2(1) == 2 && Pow2(2) == 4 && Pow2(3) == 8 && Pow2(5) == 32 && Pow2(6) == 64
    ensures Pow2(7) == 128 && Pow2(8) == 256 && Pow2(13) == 8192
  {
    assert Pow2(4) == 16;
    assert Pow2(10) == 4 * Pow2(8) && Pow2(12) == 4 * Pow2(10);
  }
}
