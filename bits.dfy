/** The bit layer of the archive: `zip` shifts code bits into an 8-bit
    register, most significant bit first, flushing it every eight bits and
    padding the last byte with zero bits; `decode` takes each byte apart from
    bit 7 down to bit 0. */
module BitPacking {
  import opened Base

  function BitValue(b: bool): Byte {
    if b then 1 else 0
  }

  /** Bit `i` of `b`, which `byte & (1 << i)` tests: the lowest bit of `b`
      halved `i` times. */
  function Bit(b: nat, i: nat): bool {
    if i == 0 then b % 2 == 1 else Bit(b / 2, i - 1)
  }

  function Pow2(n: nat): nat {
    if n == 0 then 1 else 2 * Pow2(n - 1)
  }

  /** The bits of a byte in the order `decode` visits them: bit 7 first. */
  function BitsOf(b: Byte): (r: seq<bool>)
    ensures |r| == 8
  {
    [Bit(b, 7), Bit(b, 6), Bit(b, 5), Bit(b, 4), Bit(b, 3), Bit(b, 2), Bit(b, 1), Bit(b, 0)]
  }

  /** Position `7 - i` of `BitsOf(b)` is bit `i`. */
  lemma BitsOfAt(b: Byte, i: nat)
    requires i < 8
    ensures BitsOf(b)[7 - i] == Bit(b, i)
  {
    if i == 0 {
    } else if i == 1 {
    } else if i == 2 {
    } else if i == 3 {
    } else if i == 4 {
    } else if i == 5 {
    } else if i == 6 {
    } else {
    }
  }

  /** Numbers below `2^n` that agree on their lowest `n` bits are equal. */
  lemma {:induction false} SameBits(x: nat, y: nat, n: nat)
    requires x < Pow2(n) && y < Pow2(n)
    requires forall i | 0 <= i < n :: Bit(x, i) == Bit(y, i)
    ensures x == y
  {
    if n > 0 {
      assert Bit(x, 0) == Bit(y, 0);
      forall i | 0 <= i < n - 1 ensures Bit(x / 2, i) == Bit(y / 2, i) {
        assert Bit(x, i + 1) == Bit(y, i + 1);
      }
      SameBits(x / 2, y / 2, n - 1);
    }
  }

  /** A byte is determined by its bits. */
  lemma BitsOfInjective(x: Byte, y: Byte)
    requires BitsOf(x) == BitsOf(y)
    ensures x == y
  {
    forall i | 0 <= i < 8 ensures Bit(x, i) == Bit(y, i) {
      BitsOfAt(x, i);
      BitsOfAt(y, i);
    }
    SameBits(x, y, 8);
  }

  /** `c` is a multiple of `2^(k+1)`. */
  ghost predicate Divisible(c: nat, k: nat) {
    c % 2 == 0 && (k == 0 || Divisible(c / 2, k - 1))
  }

  /** Adding a multiple of `2^(k+1)` leaves bit `k` as it is. */
  lemma {:induction false} BitAddHigh(x: nat, c: nat, k: nat)
    requires Divisible(c, k)
    ensures Bit(x + c, k) == Bit(x, k)
  {
    if k > 0 {
      assert (x + c) / 2 == x / 2 + c / 2;
      BitAddHigh(x / 2, c / 2, k - 1);
    }
  }

  lemma Divisible128(k: nat)
    requires k < 7
    ensures Divisible(128, k)
  {
    if k == 0 {
    } else if k == 1 {
    } else if k == 2 {
    } else if k == 3 {
    } else if k == 4 {
    } else if k == 5 {
    } else {
    }
  }

  /** The register `tmp` of `zip` after `tmp = 2 * tmp + bit` for each bit of
      `p`, starting from `t`; the `uint8_t` keeps the low eight bits. */
  function Reg(t: Byte, p: seq<bool>): Byte {
    if p == [] then t else (2 * Reg(t, p[..|p| - 1]) + BitValue(p[|p| - 1])) % 256
  }

  /** Shifting one more bit in. */
  lemma RegSnoc(t: Byte, p: seq<bool>, b: bool)
    ensures Reg(t, p + [b]) == (2 * Reg(t, p) + BitValue(b)) % 256
  {
    assert (p + [b])[..|p|] == p;
  }

  /** Shifting a bit in moves every bit up by one place. */
  lemma ShiftIn(r: Byte, b: bool, j: nat)
    requires j < 8
    ensures Bit((2 * r + BitValue(b)) % 256, j) == if j == 0 then b else Bit(r, j - 1)
  {
    if j > 0 {
      var q := (2 * r + BitValue(b)) % 256;
      assert q / 2 == r % 128;
      if r >= 128 {
        Divisible128(j - 1);
        BitAddHigh(r % 128, 128, j - 1);
        assert r == r % 128 + 128;
      }
    }
  }

  /** Bit `j` of the register is the bit shifted in `j` steps ago. */
  lemma {:induction false} RegBit(t: Byte, p: seq<bool>, j: nat)
    requires j < |p| && j < 8
    ensures Bit(Reg(t, p), j) == p[|p| - 1 - j]
  {
    var init := p[..|p| - 1];
    ShiftIn(Reg(t, init), p[|p| - 1], j);
    if j > 0 {
      RegBit(t, init, j - 1);
    }
  }

  /** After eight shifts the register holds exactly those eight bits,
      whatever it started from. */
  lemma RegBits(t: Byte, p: seq<bool>)
    requires |p| == 8
    ensures BitsOf(Reg(t, p)) == p
  {
    forall j | 0 <= j < 8 ensures Bit(Reg(t, p), j) == p[7 - j] {
      RegBit(t, p, j);
    }
  }

  /** Eight shifts forget the starting value: the uninitialised register of
      `zip` never reaches the archive. */
  lemma RegForgets(t: Byte, u: Byte, p: seq<bool>)
    requires |p| == 8
    ensures Reg(t, p) == Reg(u, p)
  {
    RegBits(t, p);
    RegBits(u, p);
    BitsOfInjective(Reg(t, p), Reg(u, p));
  }

  function Zeros(n: nat): (z: seq<bool>)
    ensures |z| == n && forall i | 0 <= i < n :: !z[i]
  {
    seq(n, i => false)
  }

  /** The number of zero bits that fill up the last byte. */
  function Padding(n: nat): (k: nat)
    ensures k < 8 && (n + k) % 8 == 0
    ensures n % 8 == 0 ==> k == 0
  {
    (8 - n % 8) % 8
  }

  /** The bytes `zip` writes for a stream of code bits: a byte per eight
      bits, the last one filled up with zero bits. */
  function Pack(bits: seq<bool>): (r: seq<Byte>)
    ensures |bits| <= 8 * |r| < |bits| + 8
    decreases |bits|
  {
    if bits == [] then []
    else if |bits| < 8 then [Reg(0, bits + Zeros(8 - |bits|))]
    else [Reg(0, bits[..8])] + Pack(bits[8..])
  }

  /** The bits `decode` reads from a run of bytes. */
  function Unpack(bytes: seq<Byte>): (r: seq<bool>)
    ensures |r| == 8 * |bytes|
  {
    if bytes == [] then [] else BitsOf(bytes[0]) + Unpack(bytes[1..])
  }

  lemma {:induction false} UnpackAppend(a: seq<Byte>, b: seq<Byte>)
    ensures Unpack(a + b) == Unpack(a) + Unpack(b)
  {
    if a != [] {
      assert (a + b)[1..] == a[1..] + b;
      UnpackAppend(a[1..], b);
    } else {
      assert a + b == b;
    }
  }

  /** Reading back what `zip` packs gives the code bits followed by the
      padding. */
  lemma {:induction false} UnpackPack(bits: seq<bool>)
    ensures Unpack(Pack(bits)) == bits + Zeros(Padding(|bits|))
    decreases |bits|
  {
    if bits == [] {
      assert Unpack(Pack(bits)) == [];
    } else if |bits| < 8 {
      UnpackPackLast(bits);
    } else {
      var head, tail := bits[..8], bits[8..];
      var z := Zeros(Padding(|tail|));
      assert Pack(bits) == [Reg(0, head)] + Pack(tail);
      UnpackPack(tail);
      RegBits(0, head);
      UnpackCons(Reg(0, head), Pack(tail));
      PaddingShift(|tail|);
      assert bits + z == head + (tail + z);
    }
  }

  /** The last, partly filled byte reads back as its bits and the padding. */
  lemma UnpackPackLast(bits: seq<bool>)
    requires 0 < |bits| < 8
    ensures Unpack(Pack(bits)) == bits + Zeros(Padding(|bits|))
  {
    PaddingLast(|bits|);
    var p := bits + Zeros(8 - |bits|);
    var x := Reg(0, p);
    PackShort(bits);
    RegBits(0, p);
    UnpackOne(x);
  }

  lemma UnpackOne(x: Byte)
    ensures Unpack([x]) == BitsOf(x)
  {
    assert [x][1..] == [];
  }

  lemma PackShort(bits: seq<bool>)
    requires 0 < |bits| < 8
    ensures Pack(bits) == [Reg(0, bits + Zeros(8 - |bits|))]
  {
  }

  lemma PaddingLast(n: nat)
    requires 0 < n < 8
    ensures Padding(n) == 8 - n
  {
  }

  lemma PaddingShift(n: nat)
    ensures Padding(n + 8) == Padding(n)
  {
  }

  lemma UnpackCons(x: Byte, rest: seq<Byte>)
    ensures Unpack([x] + rest) == BitsOf(x) + Unpack(rest)
  {
    assert ([x] + rest)[1..] == rest;
  }

  /** Packing the bits of whole bytes gives the bytes back. */
  lemma {:induction false} PackUnpack(bytes: seq<Byte>)
    ensures Pack(Unpack(bytes)) == bytes
  {
    if bytes != [] {
      var bits := Unpack(bytes);
      assert bits[..8] == BitsOf(bytes[0]);
      assert bits[8..] == Unpack(bytes[1..]);
      PackUnpack(bytes[1..]);
      RegBits(0, BitsOf(bytes[0]));
      BitsOfInjective(Reg(0, BitsOf(bytes[0])), bytes[0]);
    }
  }

  /** Packing works byte by byte: whole bytes already written are not
      touched by what follows. */
  lemma {:induction false} PackAppend(done: seq<bool>, p: seq<bool>)
    requires |done| % 8 == 0
    ensures Pack(done + p) == Pack(done) + Pack(p)
    decreases |done|
  {
    if done == [] {
      assert done + p == p;
    } else {
      assert (done + p)[..8] == done[..8];
      assert (done + p)[8..] == done[8..] + p;
      PackAppend(done[8..], p);
    }
  }
}
