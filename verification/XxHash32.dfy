/** XXH32 (XXHash32.cpp, XXHash32.h). The reference follows the "XXH32 algorithm
    description" of the xxHash specification lane by lane: each accumulator folds
    its own column of the stripes, where the code interleaves the four. */
module XxHash32 {
  import opened Words

  const PRIME1: Word := 0x9E37_79B1
  const PRIME2: Word := 0x85EB_CA77
  const PRIME3: Word := 0xC2B2_AE3D
  const PRIME4: Word := 0x27D4_EB2F
  const PRIME5: Word := 0x1656_67B1

  function Rotl(x: Word, r: Word): Word
    requires r <= 32
  {
    (x << r) | (x >> (32 - r))
  }

  /** Four bytes as a little-endian word. */
  function LittleEndian(b0: Byte, b1: Byte, b2: Byte, b3: Byte): Word {
    (b0 as Word) | ((b1 as Word) << 8) | ((b2 as Word) << 16) | ((b3 as Word) << 24)
  }

  function Read32(data: seq<Byte>, p: nat): Word
    requires p + 4 <= |data|
  {
    LittleEndian(data[p], data[p + 1], data[p + 2], data[p + 3])
  }

  // ---- Reference ----

  function Round(acc: Word, lane: Word): Word {
    Mul(Rotl(Add(acc, Mul(lane, PRIME2)), 13), PRIME1)
  }

  function WordStep(h: Word, w: Word): Word {
    Mul(Rotl(Add(h, Mul(w, PRIME3)), 17), PRIME4)
  }

  function ByteStep(h: Word, b: Byte): Word {
    Mul(Rotl(Add(h, Mul(Wide(b), PRIME5)), 11), PRIME1)
  }

  function Converge(v: seq<Word>): Word
    requires |v| == 4
  {
    Add(Add(Add(Rotl(v[0], 1), Rotl(v[1], 7)), Rotl(v[2], 12)), Rotl(v[3], 18))
  }

  function XorShift15(h: Word): Word { h ^ (h >> 15) }

  function XorShift13(h: Word): Word { h ^ (h >> 13) }

  function XorShift16(h: Word): Word { h ^ (h >> 16) }

  function Mix(h: Word): Word {
    XorShift16(Mul(XorShift13(Mul(XorShift15(h), PRIME2)), PRIME3))
  }

  function InitialLanes(seed: Word): (v: seq<Word>)
    ensures |v| == 4
  {
    [Add(Add(seed, PRIME1), PRIME2), Add(seed, PRIME2), Add(seed, 0), seed - PRIME1]
  }

  /** Lane k after the first n stripes. */
  function Lane(data: seq<Byte>, v: Word, k: nat, n: nat): Word
    requires k < 4 && 16 * n <= |data|
    decreases n
  {
    if n == 0 then v else Round(Lane(data, v, k, n - 1), Read32(data, 16 * (n - 1) + 4 * k))
  }

  /** The four-byte tail from p, after m words. */
  function TailWords(data: seq<Byte>, h: Word, p: nat, m: nat): Word
    requires p + 4 * m <= |data|
    decreases m
  {
    if m == 0 then h else WordStep(TailWords(data, h, p, m - 1), Read32(data, p + 4 * (m - 1)))
  }

  function TailBytes(data: seq<Byte>, h: Word, p: nat, m: nat): Word
    requires p + m <= |data|
    decreases m
  {
    if m == 0 then h else ByteStep(TailBytes(data, h, p, m - 1), data[p + m - 1])
  }

  function Lanes(data: seq<Byte>, seed: Word): (v: seq<Word>)
    ensures |v| == 4
  {
    var v, n := InitialLanes(seed), |data| / 16;
    [Lane(data, v[0], 0, n), Lane(data, v[1], 1, n), Lane(data, v[2], 2, n), Lane(data, v[3], 3, n)]
  }

  function Start(data: seq<Byte>, seed: Word): Word {
    if |data| >= 16 then Converge(Lanes(data, seed)) else Add(seed, PRIME5)
  }

  function Length32(n: nat): Word { (n % 0x1_0000_0000) as Word }

  /** Where the stripes of an input of n bytes end, and where its last whole word ends. */
  function StripesEnd(n: nat): nat { n / 16 * 16 }

  function WordsEnd(n: nat): (e: nat)
    ensures e == n / 4 * 4 && StripesEnd(n) <= e <= n && (e - StripesEnd(n)) % 4 == 0
  {
    WholeWords(n);
    StripesEnd(n) + n % 16 / 4 * 4
  }

  lemma WholeWords(n: nat)
    ensures n / 16 * 16 + n % 16 / 4 * 4 == n / 4 * 4
  {
    var q, r := n / 16, n % 16;
    var a, b := r / 4, r % 4;
    assert n == 4 * (4 * q + a) + b;
    Quotient4(4 * q + a, b);
  }

  lemma Quotient4(x: nat, b: nat)
    requires b < 4
    ensures (4 * x + b) / 4 == x
  {}

  function BeforeMix(data: seq<Byte>, seed: Word): Word {
    var n := |data|;
    var s, w := StripesEnd(n), WordsEnd(n);
    TailBytes(data, TailWords(data, Add(Start(data, seed), Length32(n)), s, (w - s) / 4), w, n - w)
  }

  function XXH32(data: seq<Byte>, seed: Word): Word { Mix(BeforeMix(data, seed)) }

  // ---- The implementation ----

  lemma SliceRead(a: seq<Byte>, from: nat, to: nat, q: nat)
    requires from <= to <= |a| && from + q + 4 <= to
    ensures Read32(a[from..to], q) == Read32(a, from + q)
  {
    hide LittleEndian;
  }

  /** What one step of the loop does to lane k. */
  lemma LaneStep(a: seq<Byte>, from: nat, to: nat, v: Word, k: nat, n: nat)
    requires from <= to <= |a| && k < 4 && 16 * (n + 1) <= to - from
    ensures Lane(a[from..to], v, k, n + 1)
         == Round(Lane(a[from..to], v, k, n), Read32(a, from + 16 * n + 4 * k))
  {
    hide Round, Read32;
    SliceRead(a, from, to, 16 * n + 4 * k);
  }

  /** The interleaved four-lane loop over a[from..to] leaves each lane as its own fold. */
  method RunLanes(data: array<Byte>, from: nat, to: nat, seed: Word) returns (h32: Word, p: nat)
    requires from + 16 <= to <= data.Length
    ensures h32 == Start(data[from..to], seed)
    ensures p == from + StripesEnd(to - from)
  {
    hide Round, Rotl, Read32, InitialLanes, Converge;
    ghost var s := data[from..to];
    ghost var n := 0;
    var limit: int := to - 16;
    var v := InitialLanes(seed);
    var v1, v2, v3, v4 := v[0], v[1], v[2], v[3];
    p := from;
    var more := true;
    while more
      invariant p == from + 16 * n <= to && (more <==> p <= limit)
      invariant v1 == Lane(s, v[0], 0, n) && v2 == Lane(s, v[1], 1, n)
      invariant v3 == Lane(s, v[2], 2, n) && v4 == Lane(s, v[3], 3, n)
      decreases limit - p
    {
      assert data[..][from..to] == s;
      LaneStep(data[..], from, to, v[0], 0, n);
      LaneStep(data[..], from, to, v[1], 1, n);
      LaneStep(data[..], from, to, v[2], 2, n);
      LaneStep(data[..], from, to, v[3], 3, n);
      v1 := Round(v1, Read32(data[..], p));
      p := p + 4;
      v2 := Round(v2, Read32(data[..], p));
      p := p + 4;
      v3 := Round(v3, Read32(data[..], p));
      p := p + 4;
      v4 := Round(v4, Read32(data[..], p));
      p := p + 4;
      n := n + 1;
      more := p <= limit;
    }
    assert n == (to - from) / 16;
    h32 := Converge([v1, v2, v3, v4]);
  }

  lemma TailStart(s: seq<Byte>, h: Word, q: nat)
    requires q <= |s|
    ensures TailWords(s, h, q, 0) == h
  {}

  lemma TailStep(a: seq<Byte>, from: nat, to: nat, h: Word, q: nat, m: nat)
    requires from <= to <= |a| && q + 4 * (m + 1) <= to - from
    ensures TailWords(a[from..to], h, q, m + 1)
         == WordStep(TailWords(a[from..to], h, q, m), Read32(a, from + q + 4 * m))
  {
    hide WordStep, Read32;
    SliceRead(a, from, to, q + 4 * m);
  }

  /** The whole words after the stripes. */
  method RunWords(data: array<Byte>, from: nat, to: nat, h: Word) returns (h32: Word, p: nat)
    requires from <= to <= data.Length
    ensures p == from + WordsEnd(to - from)
    ensures var n := to - from;
            h32 == TailWords(data[from..to], h, StripesEnd(n), (WordsEnd(n) - StripesEnd(n)) / 4)
  {
    hide WordStep, Read32, TailWords;
    ghost var q, m := StripesEnd(to - from), 0;
    h32, p := h, from + StripesEnd(to - from);
    TailStart(data[from..to], h, q);
    while p + 4 <= to
      invariant p == from + q + 4 * m <= to
      invariant h32 == TailWords(data[from..to], h, q, m)
    {
      assert data[..][from..to] == data[from..to];
      TailStep(data[..], from, to, h, q, m);
      h32 := WordStep(h32, Read32(data[..], p));
      p := p + 4;
      m := m + 1;
    }
    var n := to - from;
    assert WordsEnd(n) - 4 < q + 4 * m <= n;
  }

  lemma ByteTail(s: seq<Byte>, h: Word, q: nat, m: nat)
    requires q + m <= |s|
    ensures TailBytes(s, h, q, 0) == h
    ensures q + m < |s| ==> TailBytes(s, h, q, m + 1) == ByteStep(TailBytes(s, h, q, m), s[q + m])
  {}

  /** Hashes data[from..to] as the code does: interleaved lanes, then words, then bytes. */
  method Hash(data: array<Byte>, from: nat, to: nat, seed: Word) returns (h32: Word)
    requires from <= to <= data.Length
    ensures h32 == XXH32(data[from..to], seed)
  {
    hide ByteStep, Length32, Mix, Add, Start, TailWords, TailBytes, BeforeMix, StripesEnd, WordsEnd;
    ghost var s := data[from..to];
    var p := from;
    var length := to - from;
    if length >= 16 {
      h32, p := RunLanes(data, from, to, seed);
    } else {
      h32 := Add(seed, PRIME5);
      ShortStart(s, seed);
    }
    h32 := Add(h32, Length32(length));
    h32, p := RunWords(data, from, to, h32);
    HashIs(s, seed);
    h32, p := RunBytes(data, from, to, p, h32);
    h32 := Mix(h32);
  }

  lemma HashIs(s: seq<Byte>, seed: Word)
    ensures var n, h := |s|, Add(Start(s, seed), Length32(|s|));
            BeforeMix(s, seed)
            == TailBytes(s, TailWords(s, h, StripesEnd(n), (WordsEnd(n) - StripesEnd(n)) / 4), WordsEnd(n), n - WordsEnd(n))
  {}

  /** The bytes after the words. */
  method RunBytes(data: array<Byte>, from: nat, to: nat, start: nat, h: Word) returns (h32: Word, p: nat)
    requires from <= start <= to <= data.Length
    ensures p == to && h32 == TailBytes(data[from..to], h, start - from, to - start)
  {
    hide ByteStep, TailBytes;
    ghost var q, m := start - from, 0;
    h32, p := h, start;
    ByteTail(data[from..to], h, q, 0);
    while p < to
      invariant p == start + m <= to
      invariant h32 == TailBytes(data[from..to], h, q, m)
    {
      ByteTail(data[from..to], h, q, m);
      h32 := ByteStep(h32, data[p]);
      p := p + 1;
      m := m + 1;
    }
  }

  lemma ShortStart(s: seq<Byte>, seed: Word)
    requires |s| < 16
    ensures Start(s, seed) == Add(seed, PRIME5)
  {}

  // ---- Every step is a bijection ----

  // Sums and products are related by predicates, so that a proof can carry them without their bits.
  predicate Sum(a: Word, p: Word, u: Word) { u == a + p }

  predicate Rest(u: Word, p: Word, a: Word) { a == u - p }

  lemma AddSum(a: Word, p: Word)
    ensures Sum(a, p, Add(a, p)) && Sum(a, p, Add(p, a))
  {}

  lemma SumRest(a: Word, p: Word, u: Word)
    requires Sum(a, p, u)
    ensures Rest(u, p, a)
  {}

  lemma SameRest(u: Word, p: Word, a: Word, b: Word)
    requires Rest(u, p, a) && Rest(u, p, b)
    ensures a == b
  {}

  lemma AddInjective(a: Word, b: Word, p: Word)
    ensures Add(a, p) == Add(b, p) ==> a == b
    ensures Add(p, a) == Add(p, b) ==> a == b
  {
    hide *;
    AddSum(a, p);
    AddSum(b, p);
    if Add(a, p) == Add(b, p) {
      SumRest(a, p, Add(a, p));
      SumRest(b, p, Add(b, p));
      SameRest(Add(a, p), p, a, b);
    }
    if Add(p, a) == Add(p, b) {
      SumRest(a, p, Add(p, a));
      SumRest(b, p, Add(p, b));
      SameRest(Add(p, a), p, a, b);
    }
  }

  predicate Product(x: Word, p: Word, u: Word) { u == x * p }

  lemma MulProduct(x: Word, p: Word)
    ensures Product(x, p, Mul(x, p))
  {}

  lemma SameProduct(x: Word, p: Word, u: Word, v: Word)
    requires Product(x, p, u) && Product(x, p, v)
    ensures u == v
  {}

  // The primes are odd: each has an inverse modulo 2^32.
  predicate Prime(p: Word) { p == PRIME1 || p == PRIME2 || p == PRIME3 || p == PRIME4 || p == PRIME5 }

  function InverseOf(p: Word): Word {
    if p == 0x9E37_79B1 then 0xE8B_2F51
    else if p == 0x85EB_CA77 then 0xB6C9_2F47
    else if p == 0xC2B2_AE3D then 0xA89E_D915
    else if p == 0x27D4_EB2F then 0xA0FE_3BCF
    else 0xAE39_8151
  }

  lemma Undone1(x: Word)
    ensures Product(x * 0x9E37_79B1, 0xE8B_2F51, x)
  {}

  lemma Factor1(x: Word, u: Word)
    requires u == x * 0x9E37_79B1
    ensures Product(u, 0xE8B_2F51, x)
  {
    hide Product;
    Undone1(x);
  }

  lemma Inverse1(x: Word, u: Word)
    requires Product(x, 0x9E37_79B1, u)
    ensures Product(u, 0xE8B_2F51, x)
  {
    Factor1(x, u);
  }

  lemma Undone2(x: Word)
    ensures Product(x * 0x85EB_CA77, 0xB6C9_2F47, x)
  {}

  lemma Factor2(x: Word, u: Word)
    requires u == x * 0x85EB_CA77
    ensures Product(u, 0xB6C9_2F47, x)
  {
    hide Product;
    Undone2(x);
  }

  lemma Inverse2(x: Word, u: Word)
    requires Product(x, 0x85EB_CA77, u)
    ensures Product(u, 0xB6C9_2F47, x)
  {
    Factor2(x, u);
  }

  lemma Undone3(x: Word)
    ensures Product(x * 0xC2B2_AE3D, 0xA89E_D915, x)
  {}

  lemma Factor3(x: Word, u: Word)
    requires u == x * 0xC2B2_AE3D
    ensures Product(u, 0xA89E_D915, x)
  {
    hide Product;
    Undone3(x);
  }

  lemma Inverse3(x: Word, u: Word)
    requires Product(x, 0xC2B2_AE3D, u)
    ensures Product(u, 0xA89E_D915, x)
  {
    Factor3(x, u);
  }

  lemma Undone4(x: Word)
    ensures Product(x * 0x27D4_EB2F, 0xA0FE_3BCF, x)
  {}

  lemma Factor4(x: Word, u: Word)
    requires u == x * 0x27D4_EB2F
    ensures Product(u, 0xA0FE_3BCF, x)
  {
    hide Product;
    Undone4(x);
  }

  lemma Inverse4(x: Word, u: Word)
    requires Product(x, 0x27D4_EB2F, u)
    ensures Product(u, 0xA0FE_3BCF, x)
  {
    Factor4(x, u);
  }

  lemma Undone5(x: Word)
    ensures Product(x * 0x1656_67B1, 0xAE39_8151, x)
  {}

  lemma Factor5(x: Word, u: Word)
    requires u == x * 0x1656_67B1
    ensures Product(u, 0xAE39_8151, x)
  {
    hide Product;
    Undone5(x);
  }

  lemma Inverse5(x: Word, u: Word)
    requires Product(x, 0x1656_67B1, u)
    ensures Product(u, 0xAE39_8151, x)
  {
    Factor5(x, u);
  }

  lemma Undo(x: Word, p: Word, u: Word)
    requires Prime(p) && Product(x, p, u)
    ensures Product(u, InverseOf(p), x)
  {
    hide Product;
    if p == PRIME1 {
      Inverse1(x, u);
    } else if p == PRIME2 {
      Inverse2(x, u);
    } else if p == PRIME3 {
      Inverse3(x, u);
    } else if p == PRIME4 {
      Inverse4(x, u);
    } else {
      Inverse5(x, u);
    }
  }

  lemma MulInjective(x: Word, y: Word, p: Word)
    requires Prime(p) && Mul(x, p) == Mul(y, p)
    ensures x == y
  {
    hide Product, Mul, Prime, InverseOf;
    MulProduct(x, p);
    MulProduct(y, p);
    Undo(x, p, Mul(x, p));
    Undo(y, p, Mul(y, p));
    SameProduct(Mul(x, p), InverseOf(p), x, y);
  }

  lemma RotlInjective(x: Word, y: Word, r: Word)
    requires r in {1, 7, 11, 12, 13, 17, 18} && Rotl(x, r) == Rotl(y, r)
    ensures x == y
  {}

  lemma WideInjective(x: Byte, y: Byte)
    requires Wide(x) == Wide(y)
    ensures x == y
  {}

  lemma RoundInjective(a: Word, b: Word, x: Word, y: Word)
    requires Round(a, x) == Round(b, y)
    ensures x == y ==> a == b
    ensures a == b ==> x == y
  {
    hide Add, Mul, Rotl;
    var u, v := Add(a, Mul(x, PRIME2)), Add(b, Mul(y, PRIME2));
    MulInjective(Rotl(u, 13), Rotl(v, 13), PRIME1);
    RotlInjective(u, v, 13);
    AddInjective(a, b, Mul(x, PRIME2));
    AddInjective(Mul(x, PRIME2), Mul(y, PRIME2), a);
    if a == b {
      MulInjective(x, y, PRIME2);
    }
  }

  lemma WordStepInjective(a: Word, b: Word, x: Word, y: Word)
    requires WordStep(a, x) == WordStep(b, y)
    ensures x == y ==> a == b
    ensures a == b ==> x == y
  {
    hide Add, Mul, Rotl;
    var u, v := Add(a, Mul(x, PRIME3)), Add(b, Mul(y, PRIME3));
    MulInjective(Rotl(u, 17), Rotl(v, 17), PRIME4);
    RotlInjective(u, v, 17);
    AddInjective(a, b, Mul(x, PRIME3));
    AddInjective(Mul(x, PRIME3), Mul(y, PRIME3), a);
    if a == b {
      MulInjective(x, y, PRIME3);
    }
  }

  lemma ByteStepInjective(a: Word, b: Word, x: Byte, y: Byte)
    requires ByteStep(a, x) == ByteStep(b, y)
    ensures x == y ==> a == b
    ensures a == b ==> x == y
  {
    hide Add, Mul, Rotl, Wide;
    var p, q := Mul(Wide(x), PRIME5), Mul(Wide(y), PRIME5);
    MulInjective(Rotl(Add(a, p), 11), Rotl(Add(b, q), 11), PRIME1);
    RotlInjective(Add(a, p), Add(b, q), 11);
    AddInjective(a, b, p);
    AddInjective(p, q, a);
    if a == b {
      MulInjective(Wide(x), Wide(y), PRIME5);
      WideInjective(x, y);
    }
  }

  function Undo15(z: Word): Word { z ^ (z >> 15) ^ (z >> 30) }

  function Undo13(z: Word): Word { z ^ (z >> 13) ^ (z >> 26) }

  lemma InverseShifts(x: Word)
    ensures Undo15(x ^ (x >> 15)) == x
    ensures Undo13(x ^ (x >> 13)) == x
    ensures XorShift16(x ^ (x >> 16)) == x
  {}

  lemma ShiftDefinitions(x: Word)
    ensures XorShift15(x) == x ^ (x >> 15)
    ensures XorShift13(x) == x ^ (x >> 13)
    ensures XorShift16(x) == x ^ (x >> 16)
  {}

  lemma XorShiftsInjective(x: Word, y: Word)
    ensures XorShift15(x) == XorShift15(y) ==> x == y
    ensures XorShift13(x) == XorShift13(y) ==> x == y
    ensures XorShift16(x) == XorShift16(y) ==> x == y
  {
    hide *;
    InverseShifts(x);
    InverseShifts(y);
    ShiftDefinitions(x);
    ShiftDefinitions(y);
  }

  lemma MixInjective(x: Word, y: Word)
    requires Mix(x) == Mix(y)
    ensures x == y
  {
    hide Mul, XorShift13, XorShift15, XorShift16;
    var a, b := Mul(XorShift15(x), PRIME2), Mul(XorShift15(y), PRIME2);
    XorShiftsInjective(Mul(XorShift13(a), PRIME3), Mul(XorShift13(b), PRIME3));
    MulInjective(XorShift13(a), XorShift13(b), PRIME3);
    XorShiftsInjective(a, b);
    MulInjective(XorShift15(x), XorShift15(y), PRIME2);
    XorShiftsInjective(x, y);
  }

  // ---- A change to one unit changes the hash ----

  lemma ReadInjective(x: seq<Byte>, y: seq<Byte>, p: nat)
    requires |x| == |y| && p + 4 <= |x| && Read32(x, p) == Read32(y, p)
    ensures x[p..p + 4] == y[p..p + 4]
  {
    LittleEndianInjective(x[p], x[p + 1], x[p + 2], x[p + 3], y[p], y[p + 1], y[p + 2], y[p + 3]);
  }

  lemma LittleEndianInjective(a0: Byte, a1: Byte, a2: Byte, a3: Byte, b0: Byte, b1: Byte, b2: Byte, b3: Byte)
    requires LittleEndian(a0, a1, a2, a3) == LittleEndian(b0, b1, b2, b3)
    ensures a0 == b0 && a1 == b1 && a2 == b2 && a3 == b3
  {}

  /** x and y have equal length and agree outside the unit of size u at p, where they differ. */
  ghost predicate DifferOnlyAt(x: seq<Byte>, y: seq<Byte>, p: nat, u: nat) {
    && |x| == |y| && p + u <= |x|
    && x[..p] == y[..p] && x[p..p + u] != y[p..p + u] && x[p + u..] == y[p + u..]
  }

  /** One aligned word, or one byte after the last aligned word. */
  ghost predicate HashUnit(n: nat, p: nat, u: nat) {
    (u == 4 && p % 4 == 0) || (u == 1 && WordsEnd(n) <= p)
  }

  lemma ReadElsewhere(x: seq<Byte>, y: seq<Byte>, p: nat, u: nat, q: nat)
    requires DifferOnlyAt(x, y, p, u) && q + 4 <= |x| && (q + 4 <= p || p + u <= q)
    ensures Read32(x, q) == Read32(y, q)
  {
    hide LittleEndian;
    if q + 4 <= p {
      assert x[q..q + 4] == x[..p][q..q + 4] == y[q..q + 4];
    } else {
      var j := q - p - u;
      assert x[q..q + 4] == x[p + u..][j..j + 4] == y[q..q + 4];
    }
    ReadSlice(x, q);
    ReadSlice(y, q);
  }

  lemma ReadSlice(x: seq<Byte>, q: nat)
    requires q + 4 <= |x|
    ensures Read32(x, q) == Read32(x[q..q + 4], 0)
  {}

  /** Lane k reads the word at p in one of the first n stripes. */
  predicate ReadBy(p: nat, k: nat, n: nat) { p < 16 * n && p % 16 == 4 * k }

  lemma LaneOf(p: nat, k: nat, n: nat)
    requires k < 4 && n > 0
    ensures ReadBy(p, k, n) <==> ReadBy(p, k, n - 1) || p == 16 * (n - 1) + 4 * k
    ensures ReadBy(p, k, n - 1) ==> p < 16 * (n - 1)
  {}

  lemma NoneRead(p: nat, k: nat)
    ensures !ReadBy(p, k, 0)
  {}

  lemma LaneNumber(p: nat, k: nat, n: nat)
    requires p % 4 == 0 && k < 4
    ensures ReadBy(p, k, n) <==> p < 16 * n && p % 16 / 4 == k
  {
    assert p % 16 == 4 * (p % 16 / 4);
  }

  lemma WordsBefore(n: nat, p: nat)
    requires p % 4 == 0 && p + 4 <= n
    ensures p + 4 <= WordsEnd(n)
  {
    assert p == 4 * (p / 4);
  }

  lemma UnitBounds(n: nat, p: nat, u: nat, q: nat)
    requires HashUnit(n, p, u) && p + u <= n && q % 4 == 0 && q + 4 <= n
    ensures u == 1 || u == 4
    ensures u == 1 ==> q + 4 <= WordsEnd(n) <= p
    ensures u == 4 ==> p + 4 <= WordsEnd(n) && (p == q || q + 4 <= p || p + 4 <= q)
  {
    hide WordsEnd;
    WordsBefore(n, q);
    if u == 4 {
      WordsBefore(n, p);
      assert p == 4 * (p / 4) && q == 4 * (q / 4);
    }
  }

  /** The one word read that the change affects is the one of the unit itself. */
  lemma ReadEffect(x: seq<Byte>, y: seq<Byte>, p: nat, u: nat, q: nat)
    requires DifferOnlyAt(x, y, p, u) && HashUnit(|x|, p, u) && q % 4 == 0 && q + 4 <= |x|
    ensures |x| == |y| && (Read32(x, q) == Read32(y, q) <==> !(u == 4 && p == q))
  {
    hide Read32, HashUnit;
    UnitBounds(|x|, p, u, q);
    if u == 4 && p == q {
      if Read32(x, q) == Read32(y, q) {
        ReadInjective(x, y, q);
      }
    } else {
      ReadElsewhere(x, y, p, u, q);
    }
  }

  lemma ByteEffect(x: seq<Byte>, y: seq<Byte>, p: nat, u: nat, r: nat)
    requires DifferOnlyAt(x, y, p, u) && HashUnit(|x|, p, u) && WordsEnd(|x|) <= r < |x|
    ensures |x| == |y| && (x[r] == y[r] <==> !(u == 1 && p == r)) && (u == 4 ==> p + 4 <= r)
  {
    hide DifferOnlyAt, HashUnit, WordsEnd;
    SameLength(x, y, p, u);
    UnitKinds(|x|, p, u);
    if r < p || p + u <= r {
      SameOutside(x, y, p, u, r);
    } else {
      DifferentByte(x, y, p);
    }
  }

  lemma SameOutside(x: seq<Byte>, y: seq<Byte>, p: nat, u: nat, r: nat)
    requires DifferOnlyAt(x, y, p, u) && r < |x| && (r < p || p + u <= r)
    ensures r < |y| && x[r] == y[r]
  {
    if r < p {
      assert x[r] == x[..p][r] && y[r] == y[..p][r];
    } else {
      assert x[r] == x[p + u..][r - p - u] && y[r] == y[p + u..][r - p - u];
    }
  }

  lemma DifferentByte(x: seq<Byte>, y: seq<Byte>, p: nat)
    requires DifferOnlyAt(x, y, p, 1)
    ensures x[p] != y[p]
  {
    assert x[p..p + 1] == [x[p]] && y[p..p + 1] == [y[p]];
  }

  /** A lane that does not read the unit is unchanged; the lane that does is changed for good. */
  lemma {:induction false} LaneEffect(x: seq<Byte>, y: seq<Byte>, p: nat, u: nat, v: Word, k: nat, n: nat)
    requires DifferOnlyAt(x, y, p, u) && HashUnit(|x|, p, u) && k < 4 && 16 * n <= |x|
    ensures |x| == |y| && (Lane(x, v, k, n) == Lane(y, v, k, n) <==> !(u == 4 && ReadBy(p, k, n)))
    decreases n
  {
    hide Round, Read32, DifferOnlyAt, HashUnit, ReadBy;
    SameLength(x, y, p, u);
    NoneRead(p, k);
    if n > 0 {
      var q := 16 * (n - 1) + 4 * k;
      LaneEffect(x, y, p, u, v, k, n - 1);
      LaneOf(p, k, n);
      ReadEffect(x, y, p, u, q);
      if Lane(x, v, k, n) == Lane(y, v, k, n) {
        RoundInjective(Lane(x, v, k, n - 1), Lane(y, v, k, n - 1), Read32(x, q), Read32(y, q));
      }
    }
  }

  lemma SameLength(x: seq<Byte>, y: seq<Byte>, p: nat, u: nat)
    requires DifferOnlyAt(x, y, p, u)
    ensures |x| == |y| && p + u <= |x|
  {}

  lemma {:induction false} TailWordsEffect(x: seq<Byte>, y: seq<Byte>, p: nat, u: nat, h: Word, h': Word, q: nat, m: nat)
    requires DifferOnlyAt(x, y, p, u) && HashUnit(|x|, p, u)
    requires q % 4 == 0 && q + 4 * m <= |x|
    requires h != h' <==> p < q
    ensures |x| == |y| && (TailWords(x, h, q, m) != TailWords(y, h', q, m) <==> p < q + 4 * m)
    decreases m
  {
    hide WordStep, Read32, DifferOnlyAt, HashUnit, WordsEnd;
    SameLength(x, y, p, u);
    if m > 0 {
      var r := q + 4 * (m - 1);
      var a, b := TailWords(x, h, q, m - 1), TailWords(y, h', q, m - 1);
      TailWordsEffect(x, y, p, u, h, h', q, m - 1);
      UnitBounds(|x|, p, u, r);
      ReadEffect(x, y, p, u, r);
      if WordStep(a, Read32(x, r)) == WordStep(b, Read32(y, r)) {
        WordStepInjective(a, b, Read32(x, r), Read32(y, r));
      }
    }
  }

  lemma {:induction false} TailBytesEffect(x: seq<Byte>, y: seq<Byte>, p: nat, u: nat, h: Word, h': Word, q: nat, m: nat)
    requires DifferOnlyAt(x, y, p, u) && HashUnit(|x|, p, u)
    requires q == WordsEnd(|x|) && q + m <= |x|
    requires h != h' <==> p < q
    ensures |x| == |y| && (TailBytes(x, h, q, m) != TailBytes(y, h', q, m) <==> p < q + m)
    decreases m
  {
    hide ByteStep, DifferOnlyAt, HashUnit, WordsEnd;
    SameLength(x, y, p, u);
    if m > 0 {
      var r := q + m - 1;
      var a, b := TailBytes(x, h, q, m - 1), TailBytes(y, h', q, m - 1);
      TailBytesEffect(x, y, p, u, h, h', q, m - 1);
      UnitKinds(|x|, p, u);
      ByteEffect(x, y, p, u, r);
      if ByteStep(a, x[r]) == ByteStep(b, y[r]) {
        ByteStepInjective(a, b, x[r], y[r]);
      }
    }
  }

  lemma UnitKinds(n: nat, p: nat, u: nat)
    requires HashUnit(n, p, u) && p + u <= n
    ensures (u == 4 && p % 4 == 0 && p + 4 <= WordsEnd(n)) || (u == 1 && WordsEnd(n) <= p)
  {
    hide WordsEnd;
    if u == 4 {
      WordsBefore(n, p);
    }
  }

  /** A sum of four words determines any one of them from the others. */
  lemma SumInjective(a: Word, b: Word, c: Word, d: Word, a': Word, b': Word, c': Word, d': Word, k: nat)
    requires Add(Add(Add(a, b), c), d) == Add(Add(Add(a', b'), c'), d')
    requires (k != 0 ==> a == a') && (k != 1 ==> b == b') && (k != 2 ==> c == c') && (k != 3 ==> d == d')
    ensures a == a' && b == b' && c == c' && d == d'
  {
    hide Add;
    if k == 3 {
      AddInjective(d, d', Add(Add(a, b), c));
    } else {
      AddInjective(Add(Add(a, b), c), Add(Add(a', b'), c'), d);
      if k == 2 {
        AddInjective(c, c', Add(a, b));
      } else {
        AddInjective(Add(a, b), Add(a', b'), c);
        AddInjective(b, b', a);
        AddInjective(a, a', b);
      }
    }
  }

  lemma ConvergeEffect(v: seq<Word>, w: seq<Word>, k: nat)
    requires |v| == |w| == 4 && k < 4
    requires forall i :: 0 <= i < 4 && i != k ==> v[i] == w[i]
    requires Converge(v) == Converge(w)
    ensures v == w
  {
    hide Add, Rotl;
    SumInjective(Rotl(v[0], 1), Rotl(v[1], 7), Rotl(v[2], 12), Rotl(v[3], 18),
                 Rotl(w[0], 1), Rotl(w[1], 7), Rotl(w[2], 12), Rotl(w[3], 18), k);
    RotlInjective(v[k], w[k], if k == 0 then 1 else if k == 1 then 7 else if k == 2 then 12 else 18);
  }

  lemma LaneAt(x: seq<Byte>, seed: Word, k: nat)
    requires k < 4
    ensures Lanes(x, seed)[k] == Lane(x, InitialLanes(seed)[k], k, |x| / 16)
  {
    hide Lane, InitialLanes;
  }

  /** Only the lane that reads the unit differs. */
  lemma LanesEffect(x: seq<Byte>, y: seq<Byte>, p: nat, u: nat, seed: Word, k: nat)
    requires DifferOnlyAt(x, y, p, u) && HashUnit(|x|, p, u) && k < 4
    ensures Lanes(x, seed)[k] == Lanes(y, seed)[k] <==> !(p < StripesEnd(|x|) && p % 16 / 4 == k)
  {
    hide Lane, Lanes, InitialLanes, DifferOnlyAt, HashUnit, WordsEnd, ReadBy;
    SameLength(x, y, p, u);
    UnitKinds(|x|, p, u);
    LaneAt(x, seed, k);
    LaneAt(y, seed, k);
    LaneEffect(x, y, p, u, InitialLanes(seed)[k], k, |x| / 16);
    StripesFirst(|x|);
    if u == 4 {
      LaneNumber(p, k, |x| / 16);
    }
  }

  lemma StripesFirst(n: nat)
    ensures StripesEnd(n) == 16 * (n / 16) <= WordsEnd(n) && StripesEnd(n) <= n
  {}

  lemma StartEffect(x: seq<Byte>, y: seq<Byte>, p: nat, u: nat, seed: Word)
    requires DifferOnlyAt(x, y, p, u) && HashUnit(|x|, p, u)
    ensures Start(x, seed) != Start(y, seed) <==> p < StripesEnd(|x|)
  {
    hide Lanes, Converge, Add, DifferOnlyAt, HashUnit;
    SameLength(x, y, p, u);
    forall k | 0 <= k < 4
      ensures Lanes(x, seed)[k] == Lanes(y, seed)[k] <==> !(p < StripesEnd(|x|) && p % 16 / 4 == k)
    {
      LanesEffect(x, y, p, u, seed, k);
    }
    var k := p % 16 / 4;
    if p >= StripesEnd(|x|) {
      assert Lanes(x, seed) == Lanes(y, seed);
    } else if Converge(Lanes(x, seed)) == Converge(Lanes(y, seed)) {
      assert Lanes(x, seed)[k] != Lanes(y, seed)[k];
      ConvergeEffect(Lanes(x, seed), Lanes(y, seed), k);
    }
  }

  /** A change confined to one aligned word, or to one byte of the tail, always changes the hash. */
  lemma UnitChangeDetected(x: seq<Byte>, y: seq<Byte>, p: nat, u: nat, seed: Word)
    requires DifferOnlyAt(x, y, p, u) && HashUnit(|x|, p, u)
    ensures XXH32(x, seed) != XXH32(y, seed)
  {
    hide Start, Mix, Length32, Add, TailWords, TailBytes, DifferOnlyAt, HashUnit, WordsEnd;
    SameLength(x, y, p, u);
    UnitKinds(|x|, p, u);
    var n := |x|;
    var h, h' := Add(Start(x, seed), Length32(n)), Add(Start(y, seed), Length32(n));
    StartEffect(x, y, p, u, seed);
    AddInjective(Start(x, seed), Start(y, seed), Length32(n));
    var e, w := StripesEnd(n), WordsEnd(n);
    TailWordsEffect(x, y, p, u, h, h', e, (w - e) / 4);
    TailBytesEffect(x, y, p, u, TailWords(x, h, e, (w - e) / 4), TailWords(y, h', e, (w - e) / 4), w, n - w);
    if XXH32(x, seed) == XXH32(y, seed) {
      MixInjective(BeforeMix(x, seed), BeforeMix(y, seed));
    }
  }

  // ---- Published values ----

  const SENTENCE: seq<Byte> :=
    [0x4E, 0x6F, 0x62, 0x6F, 0x64, 0x79, 0x20, 0x69, 0x6E, 0x73, 0x70, 0x65, 0x63, 0x74, 0x73, 0x20,
     0x74, 0x68, 0x65, 0x20, 0x73, 0x70, 0x61, 0x6D, 0x6D, 0x69, 0x73, 0x68, 0x20, 0x72, 0x65, 0x70,
     0x65, 0x74, 0x69, 0x74, 0x69, 0x6F, 0x6E]

  lemma SentenceWords0()
    ensures Read32(SENTENCE, 0) == 0x6F62_6F4E
    ensures Read32(SENTENCE, 4) == 0x6920_7964
    ensures Read32(SENTENCE, 8) == 0x6570_736E
    ensures Read32(SENTENCE, 12) == 0x2073_7463
  {
    hide LittleEndian;
    assert SENTENCE[0] == 0x4E && SENTENCE[1] == 0x6F && SENTENCE[2] == 0x62 && SENTENCE[3] == 0x6F;
    assert SENTENCE[4] == 0x64 && SENTENCE[5] == 0x79 && SENTENCE[6] == 0x20 && SENTENCE[7] == 0x69;
    assert SENTENCE[8] == 0x6E && SENTENCE[9] == 0x73 && SENTENCE[10] == 0x70 && SENTENCE[11] == 0x65;
    assert SENTENCE[12] == 0x63 && SENTENCE[13] == 0x74 && SENTENCE[14] == 0x73 && SENTENCE[15] == 0x20;
    KnownWords();
  }

  lemma SentenceWords1()
    ensures Read32(SENTENCE, 16) == 0x2065_6874
    ensures Read32(SENTENCE, 20) == 0x6D61_7073
    ensures Read32(SENTENCE, 24) == 0x6873_696D
    ensures Read32(SENTENCE, 28) == 0x7065_7220
  {
    hide LittleEndian;
    assert SENTENCE[16] == 0x74 && SENTENCE[17] == 0x68 && SENTENCE[18] == 0x65 && SENTENCE[19] == 0x20;
    assert SENTENCE[20] == 0x73 && SENTENCE[21] == 0x70 && SENTENCE[22] == 0x61 && SENTENCE[23] == 0x6D;
    assert SENTENCE[24] == 0x6D && SENTENCE[25] == 0x69 && SENTENCE[26] == 0x73 && SENTENCE[27] == 0x68;
    assert SENTENCE[28] == 0x20 && SENTENCE[29] == 0x72 && SENTENCE[30] == 0x65 && SENTENCE[31] == 0x70;
    KnownWords();
  }

  lemma SentenceWords2()
    ensures Read32(SENTENCE, 32) == 0x7469_7465
  {
    hide LittleEndian;
    assert SENTENCE[32] == 0x65 && SENTENCE[33] == 0x74 && SENTENCE[34] == 0x69 && SENTENCE[35] == 0x74;
    KnownWords();
  }

  lemma KnownWords()
    ensures LittleEndian(0x4E, 0x6F, 0x62, 0x6F) == 0x6F62_6F4E
    ensures LittleEndian(0x64, 0x79, 0x20, 0x69) == 0x6920_7964
    ensures LittleEndian(0x6E, 0x73, 0x70, 0x65) == 0x6570_736E
    ensures LittleEndian(0x63, 0x74, 0x73, 0x20) == 0x2073_7463
    ensures LittleEndian(0x74, 0x68, 0x65, 0x20) == 0x2065_6874
    ensures LittleEndian(0x73, 0x70, 0x61, 0x6D) == 0x6D61_7073
    ensures LittleEndian(0x6D, 0x69, 0x73, 0x68) == 0x6873_696D
    ensures LittleEndian(0x20, 0x72, 0x65, 0x70) == 0x7065_7220
    ensures LittleEndian(0x65, 0x74, 0x69, 0x74) == 0x7469_7465
  {}

  lemma SentenceLane0()
    ensures Lane(SENTENCE, InitialLanes(0)[0], 0, 2) == 0x719A_836E
  {
    hide Lane, Read32, InitialLanes, Round;
    ZeroLanes();
    SentenceWords0();
    SentenceWords1();
    TwoRounds(InitialLanes(0)[0], 0);
    KnownRound0();
    KnownRound4();
  }

  lemma KnownRound0()
    ensures Round(0x2423_4428, 0x6F62_6F4E) == 0x046A_700A
  {}

  lemma KnownRound4()
    ensures Round(0x046A_700A, 0x2065_6874) == 0x719A_836E
  {}

  lemma SentenceLane1()
    ensures Lane(SENTENCE, InitialLanes(0)[1], 1, 2) == 0x514C_1DE8
  {
    hide Lane, Read32, InitialLanes, Round;
    ZeroLanes();
    SentenceWords0();
    SentenceWords1();
    TwoRounds(InitialLanes(0)[1], 1);
    KnownRound1();
    KnownRound5();
  }

  lemma KnownRound1()
    ensures Round(0x85EB_CA77, 0x6920_7964) == 0xBFAD_F8E3
  {}

  lemma KnownRound5()
    ensures Round(0xBFAD_F8E3, 0x6D61_7073) == 0x514C_1DE8
  {}

  lemma SentenceLane2()
    ensures Lane(SENTENCE, InitialLanes(0)[2], 2, 2) == 0x97FA_4BA2
  {
    hide Lane, Read32, InitialLanes, Round;
    ZeroLanes();
    SentenceWords0();
    SentenceWords1();
    TwoRounds(InitialLanes(0)[2], 2);
    KnownRound2();
    KnownRound6();
  }

  lemma KnownRound2()
    ensures Round(0x0000_0000, 0x6570_736E) == 0x5B32_B4AA
  {}

  lemma KnownRound6()
    ensures Round(0x5B32_B4AA, 0x6873_696D) == 0x97FA_4BA2
  {}

  lemma SentenceLane3()
    ensures Lane(SENTENCE, InitialLanes(0)[3], 3, 2) == 0x242A_97A2
  {
    hide Lane, Read32, InitialLanes, Round;
    ZeroLanes();
    SentenceWords0();
    SentenceWords1();
    TwoRounds(InitialLanes(0)[3], 3);
    KnownRound3();
    KnownRound7();
  }

  lemma KnownRound3()
    ensures Round(0x61C8_864F, 0x2073_7463) == 0x137E_5555
  {}

  lemma KnownRound7()
    ensures Round(0x137E_5555, 0x7065_7220) == 0x242A_97A2
  {}

  lemma ZeroLanes()
    ensures InitialLanes(0) == [0x2423_4428, 0x85EB_CA77, 0x0000_0000, 0x61C8_864F]
  {}

  lemma TwoRounds(v: Word, k: nat)
    requires k < 4
    ensures Lane(SENTENCE, v, k, 2) == Round(Round(v, Read32(SENTENCE, 4 * k)), Read32(SENTENCE, 16 + 4 * k))
  {
    hide Round, Read32;
    assert Lane(SENTENCE, v, k, 1) == Round(Lane(SENTENCE, v, k, 0), Read32(SENTENCE, 4 * k));
  }

  lemma KnownConverge()
    ensures Converge([0x719A_836E, 0x514C_1DE8, 0x97FA_4BA2, 0x242A_97A2]) == 0x8C86_B52D
  {}

  lemma KnownLength()
    ensures Add(0x8C86_B52D, Length32(39)) == 0x8C86_B554
  {
    hide Length32;
    Length39();
  }

  lemma Length39()
    ensures Length32(39) == 39
  {
    assert 39 % 0x1_0000_0000 == 39;
  }

  lemma KnownWord()
    ensures WordStep(0x8C86_B554, 0x7469_7465) == 0x09B5_1544
  {}

  lemma KnownByte0()
    ensures ByteStep(0x09B5_1544, 0x69) == 0xCDEF_D3C9
  {}

  lemma KnownByte1()
    ensures ByteStep(0xCDEF_D3C9, 0x6F) == 0x3852_087B
  {}

  lemma KnownByte2()
    ensures ByteStep(0x3852_087B, 0x6E) == 0xB3A7_011B
  {}

  lemma KnownMix()
    ensures Mix(0xB3A7_011B) == 0xE229_3B2F
  {}

  lemma SentenceTail(h: Word)
    ensures TailWords(SENTENCE, h, 32, 1) == WordStep(h, Read32(SENTENCE, 32))
    ensures TailBytes(SENTENCE, h, 36, 3) == ByteStep(ByteStep(ByteStep(h, 0x69), 0x6F), 0x6E)
  {
    hide WordStep, ByteStep, Read32;
    assert TailWords(SENTENCE, h, 32, 0) == h;
    assert TailBytes(SENTENCE, h, 36, 1) == ByteStep(TailBytes(SENTENCE, h, 36, 0), SENTENCE[36]);
    assert TailBytes(SENTENCE, h, 36, 2) == ByteStep(TailBytes(SENTENCE, h, 36, 1), SENTENCE[37]);
    assert TailBytes(SENTENCE, h, 36, 3) == ByteStep(TailBytes(SENTENCE, h, 36, 2), SENTENCE[38]);
  }

  /** The published hash of "Nobody inspects the spammish repetition", which has two stripes, a word and three
      bytes. */
  lemma KnownSentence()
    ensures XXH32(SENTENCE, 0) == 0xE229_3B2F
  {
    hide Lane, Read32, InitialLanes, Converge, TailWords, TailBytes, WordStep, ByteStep, Mix, Length32, Add;
    SentenceLane0();
    SentenceLane1();
    SentenceLane2();
    SentenceLane3();
    SentenceWords2();
    KnownConverge();
    KnownLength();
    KnownWord();
    KnownByte0();
    KnownByte1();
    KnownByte2();
    KnownMix();
    SentenceTail(0x8C86_B554);
    SentenceTail(0x09B5_1544);
    assert |SENTENCE| == 39 && StripesEnd(39) == 32 && WordsEnd(39) == 36;
  }

  /** The published hashes of nothing, with and without a seed. */
  lemma KnownEmpty()
    ensures XXH32([], 0) == 0x02CC_5D05 && XXH32([], 0x9E37_79B1) == 0x36B7_8AE7
  {
    hide Mix, Add, Length32, XXH32;
    EmptyHash(0);
    EmptyHash(0x9E37_79B1);
    EmptyMixed();
  }

  lemma EmptyHash(seed: Word)
    ensures XXH32([], seed) == Mix(Add(Add(seed, PRIME5), Length32(0)))
  {
    hide Mix, Add, Length32, Start, TailWords, TailBytes, BeforeMix, StripesEnd, WordsEnd;
    var h := Add(Start([], seed), Length32(0));
    ShortStart([], seed);
    HashIs([], seed);
    NoEnds();
    TailStart([], h, 0);
    ByteTail([], h, 0, 0);
  }

  lemma NoEnds()
    ensures StripesEnd(0) == 0 && WordsEnd(0) == 0
  {}

  lemma EmptyMixed()
    ensures Mix(Add(Add(0, PRIME5), Length32(0))) == 0x02CC_5D05
    ensures Mix(Add(Add(0x9E37_79B1, PRIME5), Length32(0))) == 0x36B7_8AE7
  {}

  /** The seed moves all four lanes by its own value. */
  lemma SeedMovesLanes(seed: Word, k: nat)
    requires k < 4
    ensures InitialLanes(seed)[k] == Add(InitialLanes(0)[k], seed)
  {
    hide Add;
    SeedSums(seed);
  }

  lemma SeedSums(seed: Word)
    ensures Add(Add(seed, PRIME1), PRIME2) == Add(Add(Add(0, PRIME1), PRIME2), seed)
    ensures Add(seed, PRIME2) == Add(Add(0, PRIME2), seed) && Add(seed, 0) == Add(Add(0, 0), seed)
    ensures seed - PRIME1 == Add(0 - PRIME1, seed)
  {}
}
