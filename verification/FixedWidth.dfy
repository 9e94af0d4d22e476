/** Bytes, and integers of a fixed width written least significant byte first. */
module FixedWidth {
  import opened Products

  type Byte = b: int | 0 <= b < 256

  /** Least significant byte first. */
  function PutFixed(value: nat, width: nat): (bytes: seq<Byte>)
    ensures |bytes| == width
  {
    if width == 0 then [] else [value % 256] + PutFixed(value / 256, width - 1)
  }

  function GetFixed(bytes: seq<Byte>): nat {
    if bytes == [] then 0 else bytes[0] + 256 * GetFixed(bytes[1..])
  }

  function Power256(width: nat): (p: nat)
    ensures p >= 1
  {
    if width == 0 then 1 else 256 * Power256(width - 1)
  }

  lemma {:induction false} FixedRoundTrip(value: nat, width: nat)
    requires value < Power256(width)
    ensures GetFixed(PutFixed(value, width)) == value
  {
    if width > 0 {
      FixedRoundTrip(value / 256, width - 1);
      var bytes := PutFixed(value, width);
      assert bytes[1..] == PutFixed(value / 256, width - 1);
    }
  }

  lemma {:induction false} FixedDetermined(bytes: seq<Byte>)
    ensures GetFixed(bytes) < Power256(|bytes|)
    ensures PutFixed(GetFixed(bytes), |bytes|) == bytes
  {
    if bytes != [] {
      FixedDetermined(bytes[1..]);
      var low: nat, rest := bytes[0], GetFixed(bytes[1..]);
      assert (low + 256 * rest) / 256 == rest && (low + 256 * rest) % 256 == low;
      assert bytes == [bytes[0]] + bytes[1..];
    }
  }

  /** Byte k of a number. */
  lemma {:induction false} FixedByte(n: nat, width: nat, k: nat)
    requires k < width
    ensures PutFixed(n, width)[k] == n / Power256(k) % 256
    decreases k
  {
    if k > 0 {
      FixedByte(n / 256, width - 1, k - 1);
      DivideTwice(n, 256, Power256(k - 1));
    }
  }

  lemma Power256Values()
    ensures Power256(4) == 0x1_0000_0000 && Power256(8) == 0x1_0000_0000_0000_0000
  {
    assert Power256(4) == 0x1_0000_0000;
    assert Power256(8) == 256 * 256 * 256 * 256 * Power256(4);
  }

  function Zeros(n: nat): (z: seq<Byte>)
    ensures |z| == n && forall k: nat :: k < n ==> z[k] == 0
  {
    if n == 0 then [] else Zeros(n - 1) + [0]
  }
}
