/** Variable-length integers of the wire format: seven bits a byte, least significant first, the top bit set
    on every byte but the last. */
module Varints {
  import opened MachineWords
  import opened FixedWidth
  import opened Products

  /** The result of reading a value from the front of a stream's remaining bytes. */
  datatype Parse<+T> = Failed | Parsed(value: T, rest: seq<Byte>)

  function EncodeVarint(v: nat): (bytes: seq<Byte>)
    ensures bytes != []
  {
    if v < 128 then [v] else [128 + v % 128] + EncodeVarint(v / 128)
  }

  function Power128(k: nat): (p: nat)
    ensures p >= 1
  {
    if k == 0 then 1 else 128 * Power128(k - 1)
  }

  lemma Power128Values()
    ensures Power128(4) == 0x1000_0000 && Power128(5) == 0x8_0000_0000 && Power128(10) == 0x40_0000_0000_0000_0000
  {
    assert Power128(2) == 0x4000;
    assert Power128(7) == 128 * 128 * Power128(5);
    assert Power128(9) == 128 * 128 * Power128(7);
  }

  /** Reading a 64-bit varint, from its byte k on, when the earlier bytes gave acc. */
  function VarintFrom(bytes: seq<Byte>, k: nat, acc: nat): Parse<nat>
    decreases |bytes|
  {
    if k >= 10 || bytes == [] then Failed
    else
      var next := (acc + Product(bytes[0] % 128, Power128(k))) % TWO_64;
      if bytes[0] < 128 then Parsed(next, bytes[1..]) else VarintFrom(bytes[1..], k + 1, next)
  }

  function DecodeVarint(bytes: seq<Byte>): (p: Parse<nat>)
    ensures p.Parsed? ==> p.value < TWO_64 && |p.rest| < |bytes| && p.rest == bytes[|bytes| - |p.rest|..]
  {
    VarintConsumes(bytes, 0, 0);
    VarintFrom(bytes, 0, 0)
  }

  /** The byte that may follow the low 32 bits of a sign-extended negative number. */
  function SignExtension(k: nat): Byte {
    if 7 * k < 63 then 0xFF else 0x01
  }

  /** Reading a 32-bit varint. Bytes past the 32 low bits must be empty, or extend the sign. */
  function Varint32From(bytes: seq<Byte>, k: nat, acc: nat): Parse<nat>
    decreases |bytes|
  {
    if k >= 10 || bytes == [] then Failed
    else
      var b := bytes[0];
      if k >= 5 && b % 128 != 0 && (acc < TWO_31 || b != SignExtension(k)) then Failed
      else
        var next := if k >= 5 then acc else (acc + Product(b % 128, Power128(k))) % TWO_32;
        if b >= 128 then Varint32From(bytes[1..], k + 1, next)
        else if k == 4 && b >= 16 then Failed
        else Parsed(next, bytes[1..])
  }

  function DecodeVarint32(bytes: seq<Byte>): (p: Parse<nat>)
    ensures p.Parsed? ==> p.value < TWO_32 && |p.rest| < |bytes| && p.rest == bytes[|bytes| - |p.rest|..]
  {
    Varint32Consumes(bytes, 0, 0);
    Varint32From(bytes, 0, 0)
  }

  /** Reading takes at least one byte, and what it leaves is a suffix. */
  lemma {:induction false} VarintConsumes(bytes: seq<Byte>, k: nat, acc: nat)
    requires acc < TWO_64
    ensures var p := VarintFrom(bytes, k, acc);
            p.Parsed? ==> p.value < TWO_64 && |p.rest| < |bytes| && p.rest == bytes[|bytes| - |p.rest|..]
    decreases |bytes|
  {
    if k < 10 && bytes != [] {
      VarintConsumes(bytes[1..], k + 1, (acc + Product(bytes[0] % 128, Power128(k))) % TWO_64);
    }
  }

  lemma {:induction false} Varint32Consumes(bytes: seq<Byte>, k: nat, acc: nat)
    requires acc < TWO_32
    ensures var p := Varint32From(bytes, k, acc);
            p.Parsed? ==> p.value < TWO_32 && |p.rest| < |bytes| && p.rest == bytes[|bytes| - |p.rest|..]
    decreases |bytes|
  {
    if k < 10 && bytes != [] {
      var next := if k >= 5 then acc else (acc + Product(bytes[0] % 128, Power128(k))) % TWO_32;
      Varint32Consumes(bytes[1..], k + 1, next);
    }
  }

  lemma {:induction false} VarintLength(v: nat, n: nat)
    requires 1 <= n && v < Power128(n)
    ensures |EncodeVarint(v)| <= n
  {
    if v >= 128 {
      VarintLength(v / 128, n - 1);
    }
  }

  lemma SplitAt128(v: nat, p: nat)
    ensures Product(v % 128, p) + Product(v / 128, 128 * p) == Product(v, p)
  {
    assert v == 128 * (v / 128) + v % 128;
    assert (128 * (v / 128) + v % 128) * p == 128 * (v / 128) * p + v % 128 * p;
    assert 128 * (v / 128) * p == v / 128 * (128 * p);
  }

  /** One step of the 64-bit reader over the encoding of v. */
  lemma VarintStep(v: nat, k: nat, acc: nat, p: nat, rest: seq<Byte>)
    requires k < 10 && p == Power128(k)
    ensures VarintFrom(EncodeVarint(v) + rest, k, acc) ==
            if v < 128 then Parsed((acc + Product(v, p)) % TWO_64, rest)
            else VarintFrom(EncodeVarint(v / 128) + rest, k + 1, (acc + Product(v % 128, p)) % TWO_64)
  {
    hide Product;
    assert (EncodeVarint(v) + rest)[1..] == if v < 128 then rest else EncodeVarint(v / 128) + rest;
  }

  lemma {:induction false} VarintFromEncoding(v: nat, k: nat, acc: nat, p: nat, rest: seq<Byte>)
    requires p == Power128(k) && acc + Product(v, p) < TWO_64 && k + |EncodeVarint(v)| <= 10
    ensures VarintFrom(EncodeVarint(v) + rest, k, acc) == Parsed(acc + Product(v, p), rest)
    decreases v
  {
    hide VarintFrom, Product;
    VarintStep(v, k, acc, p, rest);
    if v >= 128 {
      SplitAt128(v, p);
      VarintFromEncoding(v / 128, k + 1, acc + Product(v % 128, p), 128 * p, rest);
    }
  }

  /** Every 64-bit value round-trips, in at most ten bytes, whatever follows it. */
  lemma VarintRoundTrip(v: nat, rest: seq<Byte>)
    requires v < TWO_64
    ensures |EncodeVarint(v)| <= 10
    ensures DecodeVarint(EncodeVarint(v) + rest) == Parsed(v, rest)
  {
    Power128Values();
    VarintLength(v, 10);
    VarintFromEncoding(v, 0, 0, 1, rest);
  }

  /** One step of the 32-bit reader over the encoding of v, among its first five bytes. */
  lemma Varint32Step(v: nat, k: nat, acc: nat, p: nat, rest: seq<Byte>)
    requires k < 5 && p == Power128(k)
    ensures Varint32From(EncodeVarint(v) + rest, k, acc) ==
            if v >= 128 then Varint32From(EncodeVarint(v / 128) + rest, k + 1, (acc + Product(v % 128, p)) % TWO_32)
            else if k == 4 && v >= 16 then Failed
            else Parsed((acc + Product(v, p)) % TWO_32, rest)
  {
    hide Product;
    assert (EncodeVarint(v) + rest)[1..] == if v < 128 then rest else EncodeVarint(v / 128) + rest;
  }

  lemma FifthByteIsSmall(v: nat, p: nat)
    requires p == Power128(4) && Product(v, p) < TWO_32
    ensures v < 16
  {
    Power128Values();
    assert v * p == v * 0x1000_0000;
  }

  lemma {:induction false} Varint32FromEncoding(v: nat, k: nat, acc: nat, p: nat, rest: seq<Byte>)
    requires k <= 4 && p == Power128(k) && acc + Product(v, p) < TWO_32 && (k == 4 ==> v < 16)
    ensures Varint32From(EncodeVarint(v) + rest, k, acc) == Parsed(acc + Product(v, p), rest)
    decreases v
  {
    hide Varint32From, Product, EncodeVarint;
    Varint32Step(v, k, acc, p, rest);
    if v >= 128 {
      SplitAt128(v, p);
      if k == 3 {
        FifthByteIsSmall(v / 128, 128 * p);
      }
      Varint32FromEncoding(v / 128, k + 1, acc + Product(v % 128, p), 128 * p, rest);
    }
  }

  /** The 32-bit reader returns every 32-bit value unchanged. */
  lemma Varint32RoundTrip(v: nat, rest: seq<Byte>)
    requires v < TWO_32
    ensures DecodeVarint32(EncodeVarint(v) + rest) == Parsed(v, rest)
  {
    Varint32FromEncoding(v, 0, 0, 1, rest);
  }

  lemma {:induction false} Varint32RejectsHighBits(w: nat, k: nat, acc: nat, rest: seq<Byte>)
    requires 5 <= k <= 8 && 1 <= w && Product(w, Power128(k - 5)) < 0x1000_0000
    ensures Varint32From(EncodeVarint(w) + rest, k, acc) == Failed
    decreases w
  {
    var bytes := EncodeVarint(w) + rest;
    if w >= 128 {
      assert bytes[1..] == EncodeVarint(w / 128) + rest;
      SplitAt128(w, Power128(k - 5));
      assert Product(w / 128, Power128(k - 4)) <= Product(w, Power128(k - 5));
      assert Power128(4) == 0x1000_0000 by { Power128Values(); }
      Varint32RejectsHighBits(w / 128, k + 1, acc, rest);
    }
  }

  /** What is left of v after n groups of seven bits. */
  function Groups(v: nat, n: nat): nat {
    if n == 0 then v else Groups(v / 128, n - 1)
  }

  lemma ModuloTwice(x: nat, y: nat)
    ensures (x % TWO_32 + y) % TWO_32 == (x + y) % TWO_32
  {
  }

  /** The first five bytes give the low 32 bits; the reader then continues with what is left. */
  lemma {:induction false} Varint32LowBits(v: nat, k: nat, acc: nat, p: nat, rest: seq<Byte>)
    requires k <= 5 && p == Power128(k) && v >= Power128(5 - k) && acc < TWO_32
    requires k == 5 ==> p == 0x8_0000_0000
    ensures Varint32From(EncodeVarint(v) + rest, k, acc) ==
            Varint32From(EncodeVarint(Groups(v, 5 - k)) + rest, 5, (acc + Product(v, p)) % TWO_32)
    decreases 5 - k
  {
    if k < 5 {
      Varint32Step(v, k, acc, p, rest);
      SplitAt128(v, p);
      ModuloTwice(acc + Product(v % 128, p), Product(v / 128, 128 * p));
      assert 128 * p == Power128(k + 1);
      Power128Values();
      assert Power128(5 - k) == 128 * Power128(4 - k);
      hide Power128, Varint32From, EncodeVarint, Product;
      Varint32LowBits(v / 128, k + 1, (acc + Product(v % 128, p)) % TWO_32, 128 * p, rest);
    } else {
      assert (acc + v * 0x8_0000_0000) % TWO_32 == acc;
    }
  }

  lemma FiveGroups(v: nat)
    ensures Groups(v, 5) == v / 0x8_0000_0000
  {
    var q1 := v / 128;
    var q2 := q1 / 128;
    var q3 := q2 / 128;
    var q4 := q3 / 128;
    var q5 := q4 / 128;
    assert Groups(q4, 1) == Groups(q5, 0) == q5;
    assert Groups(q2, 3) == Groups(q3, 2) == Groups(q4, 1);
    assert Groups(v, 5) == Groups(q1, 4) == Groups(q2, 3);
    assert 0x8_0000_0000 * q5 <= v < 0x8_0000_0000 * q5 + 0x8_0000_0000;
  }

  /** A value whose fifth and last byte carries more than four bits is rejected. */
  lemma {:induction false} Varint32RejectsFifthByte(v: nat, k: nat, acc: nat, rest: seq<Byte>)
    requires k <= 4 && 16 * Power128(4 - k) <= v < 128 * Power128(4 - k)
    ensures Varint32From(EncodeVarint(v) + rest, k, acc) == Failed
    decreases v
  {
    Varint32Step(v, k, acc, Power128(k), rest);
    if k < 4 {
      assert Power128(4 - k) == 128 * Power128(3 - k);
      Varint32RejectsFifthByte(v / 128, k + 1, (acc + Product(v % 128, Power128(k))) % TWO_32, rest);
    }
  }

  lemma Varint32FullByte(w: nat, k: nat, acc: nat, rest: seq<Byte>)
    requires 5 <= k < 9 && TWO_31 <= acc && w > 0
    ensures Varint32From(EncodeVarint(128 * w + 127) + rest, k, acc) == Varint32From(EncodeVarint(w) + rest, k + 1, acc)
  {
    assert EncodeVarint(128 * w + 127) == [255] + EncodeVarint(w);
    assert ([255] + EncodeVarint(w) + rest)[1..] == EncodeVarint(w) + rest;
  }

  /** The sign bits of a negative number: four full bytes and a last one. */
  lemma Varint32SignBits(acc: nat, rest: seq<Byte>)
    requires TWO_31 <= acc
    ensures Varint32From(EncodeVarint(0x1FFF_FFFF) + rest, 5, acc) == Parsed(acc, rest)
  {
    assert ([1] + rest)[1..] == rest;
    assert Varint32From(EncodeVarint(1) + rest, 9, acc) == Parsed(acc, rest);
    hide Varint32From, EncodeVarint;
    Varint32FullByte(0x3F_FFFF, 5, acc, rest);
    Varint32FullByte(0x7FFF, 6, acc, rest);
    Varint32FullByte(0xFF, 7, acc, rest);
    Varint32FullByte(1, 8, acc, rest);
  }

  /** A sign-extended negative 32-bit number comes back as its low 32 bits. */
  lemma Varint32OfNegative(m: nat, rest: seq<Byte>)
    requires 1 <= m <= TWO_31
    ensures DecodeVarint32(EncodeVarint(TWO_64 - m) + rest) == Parsed(TWO_32 - m, rest)
  {
    var v := TWO_64 - m;
    Power128Values();
    hide Varint32From, EncodeVarint;
    assert v / 0x8_0000_0000 == 0x1FFF_FFFF && v % TWO_32 == TWO_32 - m;
    FiveGroups(v);
    Varint32LowBits(v, 0, 0, 1, rest);
    Varint32SignBits(TWO_32 - m, rest);
  }

  /** Every larger value below 2^63 is rejected. */
  lemma Varint32Rejects(v: nat, rest: seq<Byte>)
    requires TWO_32 <= v < TWO_63
    ensures DecodeVarint32(EncodeVarint(v) + rest) == Failed
  {
    Power128Values();
    if v < 0x8_0000_0000 {
      Varint32RejectsFifthByte(v, 0, 0, rest);
    } else {
      FiveGroups(v);
      Varint32LowBits(v, 0, 0, 1, rest);
      Varint32RejectsHighBits(v / 0x8_0000_0000, 5, v % TWO_32, rest);
    }
  }

  /** Two's complement, in both directions. */
  function ToUnsigned(n: int, modulus: nat): nat
    requires modulus > 0 && -(modulus as int) <= n < modulus
  {
    if n < 0 then n + modulus else n
  }

  function ToSigned(u: nat, modulus: nat): int
    requires u < modulus
  {
    if u < modulus / 2 then u else u - modulus
  }

  /** Shift left by one, and complement if the number is negative. */
  function Zigzag(n: int): (u: nat)
    requires -TWO_63 <= n < TWO_63
    ensures u < TWO_64
  {
    var shifted := 2 * ToUnsigned(n, TWO_64) % TWO_64;
    if n < 0 then TWO_64 - 1 - shifted else shifted
  }

  function Unzigzag(u: nat): int
    requires u < TWO_64
  {
    ToSigned(if u % 2 == 1 then TWO_64 - 1 - u / 2 else u / 2, TWO_64)
  }

  lemma ZigzagRoundTrip(n: int)
    requires -TWO_63 <= n < TWO_63
    ensures Unzigzag(Zigzag(n)) == n
    ensures Zigzag(n) == if n < 0 then -2 * n - 1 else 2 * n
  {
    var u := ToUnsigned(n, TWO_64);
    if n < 0 {
      assert 2 * u == TWO_64 + (TWO_64 + 2 * n);
    }
  }

  lemma UnzigzagRoundTrip(u: nat)
    requires u < TWO_64
    ensures -TWO_63 <= Unzigzag(u) < TWO_63 && Zigzag(Unzigzag(u)) == u
  {
    ZigzagRoundTrip(Unzigzag(u));
  }
}
