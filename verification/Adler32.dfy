/** stb_adler32 (imgui_draw.cpp): Adler-32 with the modulus taken once per 5552-byte
    block. The reference reduces after every byte (section 2.2 of RFC 1950). */
module Adler32 {
  import opened Common

  const MOD: nat := 65521
  const BLOCK: nat := 5552

  datatype Sums = Sums(s1: nat, s2: nat)

  function Mod(x: nat): nat { x % MOD }

  function Reduce(s: Sums): Sums { Sums(Mod(s.s1), Mod(s.s2)) }

  function AddByte(s: Sums, b: Octet): Sums { Sums(s.s1 + b, s.s2 + s.s1 + b) }

  /** Reference: both sums reduced at every byte. */
  function Adler(s: Sums, data: seq<Octet>): Sums {
    if data == [] then s else Reduce(AddByte(Adler(s, data[..|data| - 1]), data[|data| - 1]))
  }

  /** The sums of a block, not reduced. */
  function RawSums(s: Sums, data: seq<Octet>): Sums {
    if data == [] then s else AddByte(RawSums(s, data[..|data| - 1]), data[|data| - 1])
  }

  function Unpack(adler: nat): Sums { Sums(adler % 0x1_0000, adler / 0x1_0000) }

  function Pack(s: Sums): nat { s.s2 * 0x1_0000 + s.s1 }

  /** The checksum of a buffer continued from a previous checksum value. */
  function Checksum(adler: nat, data: seq<Octet>): nat { Pack(Adler(Unpack(adler), data)) }

  // ---- A block cannot overflow ----

  function Triangle(i: nat): nat { if i == 0 then 0 else Triangle(i - 1) + i }

  lemma {:induction false} TriangleTwice(i: nat)
    ensures 2 * Triangle(i) == i * (i + 1)
  {
    if i > 0 {
      TriangleTwice(i - 1);
      assert (i - 1) * i + 2 * i == i * (i + 1);
    }
  }

  /** From 16-bit sums, the growth of both sums over a block. */
  lemma {:induction false} BlockBound(s: Sums, data: seq<Octet>)
    requires s.s1 < 0x1_0000 && s.s2 < 0x1_0000
    ensures var r := RawSums(s, data); var n := |data|;
            r.s1 <= 0xFFFF + 255 * n && r.s2 <= 0xFFFF + 0xFFFF * n + 255 * Triangle(n)
  {
    if data != [] {
      BlockBound(s, data[..|data| - 1]);
    }
  }

  lemma {:induction false} TriangleMonotone(i: nat, j: nat)
    requires i <= j
    ensures Triangle(i) <= Triangle(j)
  {
    if i < j {
      TriangleMonotone(i, j - 1);
    }
  }

  /** From 16-bit sums, a block of at most 5552 bytes keeps both sums below 2^32. */
  lemma NoOverflow(s: Sums, data: seq<Octet>)
    requires s.s1 < 0x1_0000 && s.s2 < 0x1_0000 && |data| <= BLOCK
    ensures RawSums(s, data).s1 < U32 && RawSums(s, data).s2 < U32
  {
    BlockBound(s, data);
    TriangleMonotone(|data|, BLOCK);
    TriangleTwice(BLOCK);
  }

  // ---- Reducing late is reducing always ----

  lemma AddMultiple(x: nat, k: nat)
    ensures (x + MOD * k) % MOD == x % MOD
  {}

  lemma ModPlus(a: nat, b: nat)
    ensures Mod(Mod(a) + b) == Mod(a + b)
  {
    assert a + b == (a % MOD + b) + MOD * (a / MOD);
    AddMultiple(a % MOD + b, a / MOD);
  }

  lemma ReduceAdd(s: Sums, b: Octet)
    ensures Reduce(AddByte(Reduce(s), b)) == Reduce(AddByte(s, b))
  {
    hide Mod;
    ModPlus(s.s1, b);
    ModPlus(s.s2, Mod(s.s1) + b);
    assert Mod(s.s2) + (Mod(s.s1) + b) == Mod(s.s2) + Mod(s.s1) + b;
    assert s.s2 + (Mod(s.s1) + b) == Mod(s.s1) + (s.s2 + b);
    ModPlus(s.s1, s.s2 + b);
    assert s.s1 + (s.s2 + b) == s.s2 + s.s1 + b;
  }

  lemma {:induction false} LateReduction(s: Sums, data: seq<Octet>)
    ensures data != [] ==> Reduce(RawSums(s, data)) == Adler(s, data)
  {
    if |data| > 1 {
      var front, b := data[..|data| - 1], data[|data| - 1];
      LateReduction(s, front);
      ReduceAdd(RawSums(s, front), b);
    }
  }

  lemma {:induction false} AdlerSplit(s: Sums, x: seq<Octet>, y: seq<Octet>)
    ensures Adler(s, x + y) == Adler(Adler(s, x), y)
  {
    if y == [] {
      assert x + y == x;
    } else {
      assert (x + y)[..|x + y| - 1] == x + y[..|y| - 1];
      AdlerSplit(s, x, y[..|y| - 1]);
    }
  }

  /** Reducing the starting sums first makes no difference once there is a byte to add. */
  lemma {:induction false} ReducedStart(s: Sums, data: seq<Octet>)
    requires data != []
    ensures Adler(Reduce(s), data) == Adler(s, data)
  {
    if |data| == 1 {
      ReduceAdd(s, data[0]);
    } else {
      ReducedStart(s, data[..|data| - 1]);
    }
  }

  // ---- The implementation ----

  /** Byte i of the block at p into the unsigned 32-bit sums. */
  method Accumulate(buffer: array<Octet>, p: nat, i: nat, ghost s: Sums, s1: nat, s2: nat) returns (t1: nat, t2: nat)
    requires p + i < buffer.Length && i < BLOCK && s.s1 < 0x1_0000 && s.s2 < 0x1_0000
    requires Sums(s1, s2) == RawSums(s, buffer[p..p + i])
    ensures Sums(t1, t2) == RawSums(s, buffer[p..p + i + 1])
  {
    hide RawSums, Triangle, AddByte, Plus;
    ghost var block := buffer[p..p + i];
    assert buffer[p..p + i + 1] == block + [buffer[p + i]];
    RawStep(s, block, buffer[p + i]);
    NoOverflow(s, block + [buffer[p + i]]);
    Wrapless(s1, s2, buffer[p + i]);
    t1 := Plus(s1, buffer[p + i]);
    t2 := Plus(s2, t1);
  }

  /** Unsigned 32-bit addition. */
  function Plus(a: nat, b: nat): nat { (a + b) % U32 }

  lemma Wrapless(s1: nat, s2: nat, b: Octet)
    requires var r := AddByte(Sums(s1, s2), b); r.s1 < U32 && r.s2 < U32
    ensures Sums(Plus(s1, b), Plus(s2, Plus(s1, b))) == AddByte(Sums(s1, s2), b)
  {}

  lemma RawStep(s: Sums, block: seq<Octet>, b: Octet)
    ensures RawSums(s, block + [b]) == AddByte(RawSums(s, block), b)
  {
    assert (block + [b])[..|block|] == block;
  }

  /** A block at offset p: eight bytes at a time, then one at a time. */
  method SumBlock(buffer: array<Octet>, p: nat, blocklen: nat, s1: nat, s2: nat) returns (r1: nat, r2: nat)
    requires p + blocklen <= buffer.Length && blocklen <= BLOCK && s1 < 0x1_0000 && s2 < 0x1_0000
    ensures Sums(r1, r2) == RawSums(Sums(s1, s2), buffer[p..p + blocklen])
  {
    r1, r2 := s1, s2;
    var i := 0;
    while i + 7 < blocklen
      invariant i <= blocklen && Sums(r1, r2) == RawSums(Sums(s1, s2), buffer[p..p + i])
    {
      for k := 0 to 8
        invariant Sums(r1, r2) == RawSums(Sums(s1, s2), buffer[p..p + i + k])
      {
        r1, r2 := Accumulate(buffer, p, i + k, Sums(s1, s2), r1, r2);
      }
      i := i + 8;
    }
    while i < blocklen
      invariant i <= blocklen && Sums(r1, r2) == RawSums(Sums(s1, s2), buffer[p..p + i])
    {
      r1, r2 := Accumulate(buffer, p, i, Sums(s1, s2), r1, r2);
      i := i + 1;
    }
  }

  /** One block, empty or not, of what is left, then the deferred reduction. */
  lemma BlockStep(s: Sums, block: seq<Octet>, rest: seq<Octet>)
    requires block + rest != []
    ensures Adler(Reduce(RawSums(s, block)), rest) == Adler(s, block + rest)
  {
    if block == [] {
      assert block + rest == rest;
      ReducedStart(s, rest);
    } else {
      AdlerSplit(s, block, rest);
      LateReduction(s, block);
    }
  }

  /** Equals the per-byte checksum for every buffer and every starting value. */
  method StbAdler32(adler32: nat, buffer: array<Octet>, length: nat) returns (r: nat)
    requires adler32 < U32 && length <= buffer.Length && length < U32
    ensures r == Checksum(adler32, buffer[..length])
  {
    hide Adler, RawSums;
    var s1: nat, s2: nat := adler32 % 0x1_0000, adler32 / 0x1_0000;
    var buflen := length;
    var blocklen: nat := buflen % BLOCK;
    var p: nat := 0;
    assert buffer[0..length] == buffer[..length];
    while buflen != 0
      invariant p + buflen == length && blocklen <= BLOCK
      invariant buflen == 0 || (blocklen <= buflen && buflen % BLOCK == blocklen % BLOCK)
      invariant s1 < 0x1_0000 && s2 < 0x1_0000
      invariant Adler(Sums(s1, s2), buffer[p..length]) == Adler(Unpack(adler32), buffer[..length])
      decreases buflen, BLOCK - blocklen
    {
      ghost var s, rest := Sums(s1, s2), buffer[p + blocklen..length];
      assert buffer[p..p + blocklen] + rest == buffer[p..length];
      BlockStep(s, buffer[p..p + blocklen], rest);
      s1, s2 := SumBlock(buffer, p, blocklen, s1, s2);
      s1, s2 := s1 % MOD, s2 % MOD;
      p := p + blocklen;
      buflen := buflen - blocklen;
      blocklen := BLOCK;
    }
    assert buffer[p..length] == [];
    AdlerOfNothing(Sums(s1, s2));
    r := (s2 * 0x1_0000) % U32 + s1;
  }

  lemma AdlerOfNothing(s: Sums)
    ensures Adler(s, []) == s
  {}

  // ---- Closed sums ----

  function ByteSum(data: seq<Octet>): nat { if data == [] then 0 else data[0] + ByteSum(data[1..]) }

  /** Each byte counted once for every byte from it to the end. */
  function WeightedSum(data: seq<Octet>): nat {
    if data == [] then 0 else |data| * data[0] + WeightedSum(data[1..])
  }

  lemma {:induction false} RawFirst(s: Sums, data: seq<Octet>)
    requires data != []
    ensures RawSums(s, data) == RawSums(AddByte(s, data[0]), data[1..])
    decreases |data|
  {
    if |data| == 1 {
      assert data[..0] == [] && data[1..] == [];
    } else {
      var front, rest := data[..|data| - 1], data[1..];
      RawFirst(s, front);
      assert front[1..] == rest[..|rest| - 1];
    }
  }

  lemma Grown(n: nat, a: nat, b: nat)
    requires n > 0
    ensures a + b + (n - 1) * (a + b) == n * a + n * b
  {}

  lemma {:induction false} RawClosed(s: Sums, data: seq<Octet>)
    ensures RawSums(s, data).s1 == s.s1 + ByteSum(data)
    ensures RawSums(s, data).s2 == s.s2 + |data| * s.s1 + WeightedSum(data)
    decreases |data|
  {
    if data != [] {
      hide RawSums;
      RawFirst(s, data);
      RawClosed(AddByte(s, data[0]), data[1..]);
      Grown(|data|, s.s1, data[0]);
    }
  }

  lemma Halves(a: nat, b: nat)
    requires a < 0x1_0000
    ensures (b * 0x1_0000 + a) % 0x1_0000 == a && (b * 0x1_0000 + a) / 0x1_0000 == b
  {}

  lemma AdlerClosed(data: seq<Octet>)
    ensures Adler(Sums(1, 0), data) == Sums(Mod(1 + ByteSum(data)), Mod(|data| + WeightedSum(data)))
  {
    hide Adler, RawSums, ByteSum, WeightedSum, Mod;
    if data == [] {
      AdlerOfNothing(Sums(1, 0));
      NoSums();
      SmallMod();
    } else {
      LateReduction(Sums(1, 0), data);
      RawClosed(Sums(1, 0), data);
    }
  }

  lemma SmallMod()
    ensures Mod(0) == 0 && Mod(1) == 1
  {}

  lemma ChecksumHalves(data: seq<Octet>)
    ensures var r := Adler(Sums(1, 0), data);
            Checksum(1, data) % 0x1_0000 == r.s1 && Checksum(1, data) / 0x1_0000 == r.s2
  {
    hide Adler;
    var r := Adler(Sums(1, 0), data);
    SumsFit(data);
    Halves(r.s1, r.s2);
    assert Unpack(1) == Sums(1, 0);
  }

  /** The checksum in closed form: below, the sum of the bytes and one; above, the sum of all the partial
      sums; both modulo 65521. */
  lemma ChecksumClosed(data: seq<Octet>)
    ensures Checksum(1, data) % 0x1_0000 == (1 + ByteSum(data)) % 65521
    ensures Checksum(1, data) / 0x1_0000 == (|data| + WeightedSum(data)) % 65521
  {
    hide Adler, Checksum, ByteSum, WeightedSum;
    AdlerClosed(data);
    ChecksumHalves(data);
  }

  lemma NoSums()
    ensures ByteSum([]) == 0 && WeightedSum([]) == 0
  {}

  /** A checksum continued over a second buffer is that of both. */
  lemma ChecksumContinues(x: seq<Octet>, y: seq<Octet>)
    ensures Checksum(Checksum(1, x), y) == Checksum(1, x + y)
  {
    hide Adler;
    AdlerSplit(Sums(1, 0), x, y);
    SumsFit(x);
    var r := Adler(Sums(1, 0), x);
    Halves(r.s1, r.s2);
    assert Unpack(1) == Sums(1, 0);
  }

  lemma SumsFit(data: seq<Octet>)
    ensures Adler(Sums(1, 0), data).s1 < 0x1_0000
  {}

  /** The bytes of "abc". */
  lemma KnownChecksum()
    ensures Checksum(1, [0x61, 0x62, 0x63]) == 0x024D_0127
  {
    hide Checksum;
    var abc, bc, c: seq<Octet> := [0x61, 0x62, 0x63], [0x62, 0x63], [0x63];
    ChecksumClosed(abc);
    NoSums();
    assert abc[1..] == bc && bc[1..] == c && c[1..] == [];
    assert ByteSum(c) == 0x63 && ByteSum(bc) == 0xC5 && ByteSum(abc) == 0x126;
    assert WeightedSum(c) == 0x63 && WeightedSum(bc) == 0x127 && WeightedSum(abc) == 0x24A;
  }
}
