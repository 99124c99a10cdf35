/** Bytes, and numbers stored least significant byte first. */
module Bytes {
  type Byte = b: int | 0 <= b < 256

  function Power(width: nat): (p: nat)
    ensures p > 0
  {
    if width == 0 then 1 else 256 * Power(width - 1)
  }

  function Little(n: nat, width: nat): (bytes: seq<Byte>)
    ensures |bytes| == width
  {
    if width == 0 then [] else [n % 256] + Little(n / 256, width - 1)
  }

  function FromLittle(bytes: seq<Byte>): nat {
    if bytes == [] then 0 else bytes[0] + 256 * FromLittle(bytes[1..])
  }

  /** The number without its i least significant bytes. */
  function Shifted(n: nat, i: nat): nat {
    if i == 0 then n else Shifted(n / 256, i - 1)
  }

  /** The bytes come least significant first. */
  lemma {:induction false} LittleByte(n: nat, width: nat, i: nat)
    requires i < width
    ensures Little(n, width)[i] == Shifted(n, i) % 256
    decreases i
  {
    if i > 0 {
      LittleByte(n / 256, width - 1, i - 1);
    }
  }

  /** Numbers are read least significant byte first. */
  lemma ReadLittle(a: Byte, b: Byte)
    ensures FromLittle([a]) == a && FromLittle([a, b]) == a + 256 * b
  {
    assert [a][1..] == [] && [a, b][1..] == [b];
    assert FromLittle([b]) == b + 256 * FromLittle([b][1..]);
  }

  /** A number that fits is read back as it was stored. */
  lemma {:induction false} LittleRoundTrip(n: nat, width: nat)
    requires n < Power(width)
    ensures FromLittle(Little(n, width)) == n
  {
    if width > 0 {
      var rest := Little(n / 256, width - 1);
      LittleRoundTrip(n / 256, width - 1);
      assert Little(n, width)[1..] == rest;
      assert n == n % 256 + 256 * (n / 256);
    }
  }
}
