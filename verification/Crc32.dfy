/** CRC-32 as the kernel driver computes it (crc.c): a 256-entry table and one
    table step per byte. The reference is the shift register itself, fed one
    message bit at a time, least significant bit first. */
module Crc32 {
  import opened Words

  const POLYNOMIAL: Word := 0xEDB8_8320
  const SEED: Word := 0xFFFF_FFFF

  /** One clock of the reflected shift register. */
  function BitStep(x: Word): Word {
    if x & 1 == 1 then (x >> 1) ^ POLYNOMIAL else x >> 1
  }

  function BitSteps(x: Word, n: nat): Word
    decreases n
  {
    if n == 0 then x else BitSteps(BitStep(x), n - 1)
  }

  // ---- Reference: the register fed bit by bit ----

  function FeedBits(c: Word, bits: seq<bool>): Word
    decreases bits
  {
    if bits == [] then c else FeedBits(BitStep(Xor(c, Bit(bits[0]))), bits[1..])
  }

  /** The low n bits of b, least significant first. */
  function LowBits(b: Byte, n: nat): seq<bool>
    decreases n
  {
    if n == 0 then [] else [b & 1 == 1] + LowBits(b >> 1, n - 1)
  }

  function MessageBits(data: seq<Byte>): seq<bool> {
    if data == [] then [] else LowBits(data[0], 8) + MessageBits(data[1..])
  }

  function Complement(w: Word): Word { !w }

  function BitwiseCrc(data: seq<Byte>): Word {
    Complement(FeedBits(SEED, MessageBits(data)))
  }

  // ---- Byte steps ----

  function ByteStep(c: Word, b: Byte): Word {
    BitSteps(Xor(c, Wide(b)), 8)
  }

  function FeedBytes(c: Word, data: seq<Byte>): Word
    decreases data
  {
    if data == [] then c else FeedBytes(ByteStep(c, data[0]), data[1..])
  }

  // ---- The register is linear over GF(2) ----

  function Down1(x: Word): Word { x >> 1 }

  predicate Odd(x: Word) { x & 1 == 1 }

  lemma BitStepParts(x: Word)
    ensures BitStep(x) == if Odd(x) then Xor(Down1(x), POLYNOMIAL) else Down1(x)
  {}

  lemma XorParts(x: Word, y: Word)
    ensures Down1(Xor(x, y)) == Xor(Down1(x), Down1(y))
    ensures Odd(Xor(x, y)) <==> Odd(x) != Odd(y)
  {}

  lemma BitStepLinear(x: Word, y: Word)
    ensures BitStep(Xor(x, y)) == Xor(BitStep(x), BitStep(y))
  {
    hide *;
    BitStepParts(x);
    BitStepParts(y);
    BitStepParts(Xor(x, y));
    XorParts(x, y);
    XorCancel(Down1(x), Down1(y), POLYNOMIAL);
    XorSwap(Down1(x), Down1(y), POLYNOMIAL);
  }

  lemma {:induction false} BitStepsLinear(x: Word, y: Word, n: nat)
    ensures BitSteps(Xor(x, y), n) == Xor(BitSteps(x, n), BitSteps(y, n))
    decreases n
  {
    hide Xor, BitStep;
    if n > 0 {
      BitStepLinear(x, y);
      BitStepsLinear(BitStep(x), BitStep(y), n - 1);
    }
  }

  lemma EightSteps(x: Word)
    ensures BitSteps(x, 8)
         == BitStep(BitStep(BitStep(BitStep(BitStep(BitStep(BitStep(BitStep(x))))))))
  {
    hide BitStep;
    var y := BitStep(BitStep(BitStep(BitStep(x))));
    assert BitSteps(x, 8) == BitSteps(BitStep(BitStep(x)), 6) == BitSteps(y, 4);
    assert BitSteps(y, 4) == BitSteps(BitStep(BitStep(y)), 2);
  }

  /** Eight clocks of a register whose low byte is clear only shift it. */
  lemma ShiftSteps(x: Word)
    requires x & 0xFF == 0
    ensures BitSteps(x, 8) == x >> 8
  {
    hide BitSteps;
    EightSteps(x);
  }

  function Low8(x: Word): Word { x & 0xFF }

  function High24(x: Word): Word { x & 0xFFFF_FF00 }

  function Down8(x: Word): Word { x >> 8 }

  lemma SplitWord(x: Word)
    ensures x == Xor(High24(x), Low8(x))
    ensures High24(x) & 0xFF == 0
    ensures High24(x) >> 8 == Down8(x)
  {}

  /** Eight clocks move the upper 24 bits down and add the table entry of the low byte. */
  lemma TableSplit(x: Word)
    ensures BitSteps(x, 8) == Xor(Down8(x), BitSteps(Low8(x), 8))
  {
    hide *;
    SplitWord(x);
    BitStepsLinear(High24(x), Low8(x), 8);
    ShiftSteps(High24(x));
  }

  // ---- Bytes are bits ----

  predicate Fits(b: Byte, n: nat)
    decreases n
  {
    if n == 0 then b == 0 else Fits(b >> 1, n - 1)
  }

  lemma ByteFits(b: Byte)
    ensures Fits(b, 8)
  {
    assert Fits(b >> 1 >> 1 >> 1 >> 1 >> 1 >> 1 >> 1 >> 1, 0);
    assert Fits(b >> 1 >> 1 >> 1 >> 1 >> 1 >> 1, 2);
    assert Fits(b >> 1 >> 1 >> 1 >> 1, 4);
    assert Fits(b >> 1 >> 1, 6);
  }

  lemma SplitByte(b: Byte)
    ensures Wide(b) == Xor(Bit(b & 1 == 1), Wide(b & 0xFE))
    ensures BitStep(Wide(b & 0xFE)) == Wide(b >> 1)
  {}

  lemma PeelBit(c: Word, b: Byte)
    ensures BitStep(Xor(c, Wide(b))) == Xor(BitStep(Xor(c, Bit(b & 1 == 1))), Wide(b >> 1))
  {
    hide *;
    SplitByte(b);
    XorLaws(c, Bit(b & 1 == 1), Wide(b & 0xFE));
    BitStepLinear(Xor(c, Bit(b & 1 == 1)), Wide(b & 0xFE));
  }

  lemma {:induction false} FeedLowBits(c: Word, b: Byte, n: nat)
    requires Fits(b, n)
    ensures FeedBits(c, LowBits(b, n)) == BitSteps(Xor(c, Wide(b)), n)
    decreases n
  {
    hide Xor, BitStep;
    if n == 0 {
      XorLaws(c, 0, 0);
    } else {
      PeelBit(c, b);
      FeedLowBits(BitStep(Xor(c, Bit(b & 1 == 1))), b >> 1, n - 1);
    }
  }

  lemma {:induction false} FeedBitsSplit(c: Word, x: seq<bool>, y: seq<bool>)
    ensures FeedBits(c, x + y) == FeedBits(FeedBits(c, x), y)
    decreases x
  {
    hide Xor, BitStep;
    if x == [] {
      assert x + y == y;
    } else {
      assert (x + y)[1..] == x[1..] + y;
      FeedBitsSplit(BitStep(Xor(c, Bit(x[0]))), x[1..], y);
    }
  }

  /** Clocking a message in byte by byte is clocking it in bit by bit. */
  lemma {:induction false} BytesAreBits(c: Word, data: seq<Byte>)
    ensures FeedBytes(c, data) == FeedBits(c, MessageBits(data))
    decreases data
  {
    hide Xor, BitStep, BitSteps, LowBits;
    if data != [] {
      ByteFits(data[0]);
      FeedLowBits(c, data[0], 8);
      FeedBitsSplit(c, LowBits(data[0], 8), MessageBits(data[1..]));
      BytesAreBits(ByteStep(c, data[0]), data[1..]);
    }
  }

  lemma {:induction false} FeedBytesSplit(c: Word, x: seq<Byte>, y: seq<Byte>)
    ensures FeedBytes(c, x + y) == FeedBytes(FeedBytes(c, x), y)
    decreases x
  {
    hide Xor, BitSteps, Wide;
    if x == [] {
      assert x + y == y;
    } else {
      assert (x + y)[1..] == x[1..] + y;
      FeedBytesSplit(ByteStep(c, x[0]), x[1..], y);
    }
  }

  // ---- The driver's engine ----

  ghost predicate IsTable(t: seq<Word>) {
    |t| == 256 && forall i: nat :: i < 256 ==> t[i] == TableEntry(i)
  }

  ghost function TableEntry(i: nat): Word
    requires i < 256
  {
    BitSteps(i as Word, 8)
  }

  function TableIndex(crc: Word, b: Byte): (i: nat)
    ensures i < 256
  {
    ((crc ^ (b as Word)) & 0xFF) as nat
  }

  lemma IndexWord(crc: Word, b: Byte)
    ensures TableIndex(crc, b) as Word == Low8(Xor(crc, Wide(b)))
  {
    var w := (crc ^ (b as Word)) & 0xFF;
    RoundTrip(w);
  }

  lemma RoundTrip(w: Word)
    requires w <= 0xFF
    ensures (w as nat) as Word == w
  {}

  lemma DownIgnoresByte(crc: Word, b: Byte)
    ensures Down8(Xor(crc, Wide(b))) == Down8(crc)
  {}

  lemma TableStep(t: seq<Word>, crc: Word, b: Byte)
    requires IsTable(t)
    ensures Xor(Down8(crc), t[TableIndex(crc, b)]) == ByteStep(crc, b)
  {
    hide Xor, Down8, Low8, TableIndex, BitSteps, Wide;
    IndexWord(crc, b);
    DownIgnoresByte(crc, b);
    TableSplit(Xor(crc, Wide(b)));
  }

  lemma OneMore(x: Word, n: nat)
    ensures BitSteps(x, n) == if n == 0 then x else BitSteps(BitStep(x), n - 1)
  {}

  class Engine {
    var table: array<Word>
    var initialized: bool

    ghost predicate Valid()
      reads this, table
    {
      table.Length == 256 && (initialized ==> IsTable(table[..]))
    }

    /** Driver load: the table is zeroed and not yet computed. */
    constructor ()
      ensures Valid() && fresh(table) && !initialized
    {
      table := new Word[256](i => 0);
      initialized := false;
    }

    method InitializeTable()
      requires Valid()
      modifies this`initialized, table
      ensures Valid() && initialized && table == old(table)
    {
      hide BitStep, BitSteps;
      if initialized {
        return;
      }
      for i := 0 to 256
        invariant table.Length == 256
        invariant forall k: nat :: k < i ==> table[k] == TableEntry(k)
      {
        var crc := i as Word;
        for j := 0 to 8
          invariant forall k: nat :: k < i ==> table[k] == TableEntry(k)
          invariant BitSteps(crc, 8 - j) == TableEntry(i)
        {
          BitStepParts(crc);
          OneMore(crc, 8 - j);
          crc := if Odd(crc) then Xor(Down1(crc), POLYNOMIAL) else Down1(crc);
        }
        OneMore(crc, 0);
        table[i] := crc;
      }
      initialized := true;
    }

    /** The checksum of the first length bytes of a buffer is the bit-serial CRC of those bytes. */
    method Calculate(data: array<Byte>, length: nat) returns (crc: Word)
      requires Valid() && length <= data.Length
      modifies this`initialized, table
      ensures Valid() && initialized && table == old(table)
      ensures crc == BitwiseCrc(data[..length])
    {
      hide Xor, Wide, Down8, TableIndex, BitSteps, Complement;
      if !initialized {
        InitializeTable();
      }
      crc := SEED;
      for i := 0 to length
        invariant Valid() && initialized && table == old(table)
        invariant crc == FeedBytes(SEED, data[..i])
      {
        TableStep(table[..], crc, data[i]);
        crc := Xor(Down8(crc), table[TableIndex(crc, data[i])]);
        assert data[..i + 1] == data[..i] + [data[i]];
        FeedBytesSplit(SEED, data[..i], [data[i]]);
      }
      BytesAreBits(SEED, data[..length]);
      crc := Complement(crc);
    }
  }

  // ---- What the checksum detects ----

  /** A register difference that m further message bytes could still cancel. */
  predicate Cancellable(d: Word, m: nat)
    requires m <= 3
  {
    if m == 0 then d == 0 else if m == 1 then d <= 0xFF else if m == 2 then d <= 0xFFFF else d <= 0xFF_FFFF
  }

  /** Running eight clocks backwards from a small difference adds eight low bits. */
  lemma Unclock(d: Word, m: nat)
    requires m < 3 && Cancellable(BitSteps(d, 8), m)
    ensures Low8(d) == 0 && Cancellable(Down8(d), m)
  {
    hide BitSteps;
    EightSteps(d);
  }

  lemma UnclockedBound(d: Word, a: Byte, b: Byte, m: nat)
    requires m < 3
    requires var e := Xor(d, Xor(Wide(a), Wide(b))); Low8(e) == 0 && Cancellable(Down8(e), m)
    ensures Cancellable(d, m + 1)
  {}

  lemma StepDifference(c: Word, c': Word, a: Byte, b: Byte)
    ensures Xor(ByteStep(c, a), ByteStep(c', b)) == BitSteps(Xor(Xor(c, c'), Xor(Wide(a), Wide(b))), 8)
  {
    hide Xor, Wide, BitSteps;
    var s, s' := Xor(c, Wide(a)), Xor(c', Wide(b));
    BitStepsLinear(s, s', 8);
    XorLaws(s, c', Wide(b));
    XorSwap(c, Wide(a), c');
    XorLaws(Xor(c, c'), Wide(a), Wide(b));
  }

  /** Registers that agree after m more bytes differed, before them, in at most 8m low bits. */
  lemma {:induction false} AgreeAfter(c: Word, c': Word, x: seq<Byte>, y: seq<Byte>)
    requires |x| == |y| <= 3
    requires FeedBytes(c, x) == FeedBytes(c', y)
    ensures Cancellable(Xor(c, c'), |x|)
    decreases x
  {
    XorZero(c, c');
    if x != [] {
      hide Xor, Wide, Low8, Down8, BitSteps, ByteStep, Cancellable;
      assert FeedBytes(ByteStep(c, x[0]), x[1..]) == FeedBytes(ByteStep(c', y[0]), y[1..]);
      AgreeAfter(ByteStep(c, x[0]), ByteStep(c', y[0]), x[1..], y[1..]);
      StepDifference(c, c', x[0], y[0]);
      Unclock(Xor(Xor(c, c'), Xor(Wide(x[0]), Wide(y[0]))), |x| - 1);
      UnclockedBound(Xor(c, c'), x[0], y[0], |x| - 1);
    }
  }

  lemma ByteDifference(a: Byte, b: Byte)
    requires a != b
    ensures Xor(0, Xor(Wide(a), Wide(b))) != 0 && Xor(0, Xor(Wide(a), Wide(b))) <= 0xFF
  {}

  lemma TopByteDisturbed(e: Word)
    requires 0 != e && e <= 0xFF
    ensures !Cancellable(BitSteps(e, 8), 3)
  {
    hide BitSteps;
    EightSteps(e);
  }

  /** A single different byte disturbs the top byte of the register, out of reach of three bytes. */
  lemma FirstDifference(c: Word, a: Byte, b: Byte)
    requires a != b
    ensures !Cancellable(Xor(ByteStep(c, a), ByteStep(c, b)), 3)
  {
    hide *;
    StepDifference(c, c, a, b);
    XorLaws(c, c, c);
    ByteDifference(a, b);
    TopByteDisturbed(Xor(0, Xor(Wide(a), Wide(b))));
  }

  lemma {:induction false} FeedInjective(c: Word, c': Word, y: seq<Byte>)
    requires FeedBytes(c, y) == FeedBytes(c', y)
    ensures c == c'
    decreases y
  {
    if y != [] {
      hide Xor, Wide, BitSteps, ByteStep;
      FeedInjective(ByteStep(c, y[0]), ByteStep(c', y[0]), y[1..]);
      AgreeAfter(c, c', [y[0]], [y[0]]);
      StepDifference(c, c', y[0], y[0]);
      var d := Xor(c, c');
      XorLaws(Wide(y[0]), Wide(y[0]), d);
      XorLaws(d, 0, 0);
      XorZero(ByteStep(c, y[0]), ByteStep(c', y[0]));
      XorZero(c, c');
      ZeroOnly(d);
    }
  }

  lemma ZeroOnly(d: Word)
    requires BitSteps(d, 8) == 0
    ensures d == 0
  {
    hide BitSteps;
    EightSteps(d);
  }

  /** x and y have the same length and agree outside four consecutive bytes, the first at k. */
  ghost predicate DifferWithinFour(x: seq<Byte>, y: seq<Byte>, k: nat) {
    |x| == |y| && forall i :: 0 <= i < |x| && !(k <= i < k + 4) ==> x[i] == y[i]
  }

  /** Any change confined to four consecutive bytes changes the checksum. */
  lemma BurstDetected(x: seq<Byte>, y: seq<Byte>, k: nat)
    requires DifferWithinFour(x, y, k) && x != y
    ensures BitwiseCrc(x) != BitwiseCrc(y)
  {
    hide Xor, ByteStep, Cancellable, FeedBytes, BitwiseCrc, Complement;
    var i := FirstMismatch(x, y);
    var e := if k + 4 <= |x| then k + 4 else |x|;
    assert i < e;
    var mx, my, tail := x[i + 1..e], y[i + 1..e], x[e..];
    assert x == x[..i] + [x[i]] + mx + tail;
    assert y == x[..i] + [y[i]] + my + tail;
    var c := FeedBytes(SEED, x[..i]);
    var cx, cy := ByteStep(c, x[i]), ByteStep(c, y[i]);
    FeedParts(x[..i], x[i], mx, tail);
    FeedParts(x[..i], y[i], my, tail);
    if BitwiseCrc(x) == BitwiseCrc(y) {
      ComplementInjective(FeedBytes(FeedBytes(cx, mx), tail), FeedBytes(FeedBytes(cy, my), tail));
      FeedInjective(FeedBytes(cx, mx), FeedBytes(cy, my), tail);
      AgreeAfter(cx, cy, mx, my);
      FirstDifference(c, x[i], y[i]);
      WidenCancellable(Xor(cx, cy), |mx|);
      assert false;
    }
  }

  lemma ComplementInjective(a: Word, b: Word)
    requires Complement(a) == Complement(b)
    ensures a == b
  {
    assert !(!a) == a && !(!b) == b;
  }

  lemma FeedParts(pre: seq<Byte>, b: Byte, mid: seq<Byte>, tail: seq<Byte>)
    ensures BitwiseCrc(pre + [b] + mid + tail)
         == Complement(FeedBytes(FeedBytes(ByteStep(FeedBytes(SEED, pre), b), mid), tail))
  {
    hide *;
    FeedBytesSplit(SEED, pre + [b] + mid, tail);
    FeedBytesSplit(SEED, pre + [b], mid);
    FeedBytesSplit(SEED, pre, [b]);
    BytewiseCrc(pre + [b] + mid + tail);
    FeedOne(FeedBytes(SEED, pre), b);
  }

  lemma BytewiseCrc(data: seq<Byte>)
    ensures BitwiseCrc(data) == Complement(FeedBytes(SEED, data))
  {
    hide FeedBits, FeedBytes, MessageBits, Complement;
    BytesAreBits(SEED, data);
  }

  lemma FeedOne(c: Word, b: Byte)
    ensures FeedBytes(c, [b]) == ByteStep(c, b)
  {
    hide Xor, ByteStep;
    assert FeedBytes(ByteStep(c, b), []) == ByteStep(c, b);
  }

  lemma WidenCancellable(d: Word, m: nat)
    requires m <= 3 && Cancellable(d, m)
    ensures Cancellable(d, 3)
  {}

  lemma FirstMismatch(x: seq<Byte>, y: seq<Byte>) returns (i: nat)
    requires |x| == |y| && x != y
    ensures i < |x| && x[..i] == y[..i] && x[i] != y[i]
  {
    i := 0;
    while x[i] == y[i]
      invariant i < |x| && x[..i] == y[..i]
      invariant x[i..] != y[i..]
      decreases |x| - i
    {
      assert x[i..] == [x[i]] + x[i + 1..];
      assert y[i..] == [y[i]] + y[i + 1..];
      i := i + 1;
    }
  }

  // ---- Independent of the register ----

  function Byte0(w: Word): Byte { (w & 0xFF) as Byte }

  /** A word, least significant byte first. */
  function WordBytes(w: Word): (s: seq<Byte>)
    ensures |s| == 4
  {
    [Byte0(w), Byte0(Down8(w)), Byte0(Down8(Down8(w))), Byte0(Down8(Down8(Down8(w))))]
  }

  /** Feeding a register the low byte of a word clocks in the whole word but for its upper bytes. */
  lemma FeedByte0(c: Word, w: Word)
    ensures BitSteps(Xor(c, w), 8) == Xor(ByteStep(c, Byte0(w)), Down8(w))
  {
    hide *;
    TableSplit(Xor(c, w));
    TableSplit(Xor(c, Wide(Byte0(w))));
    LowParts(c, w);
    ByteStepIs(c, Byte0(w));
    XorSwap(Down8(c), Down8(w), BitSteps(Low8(Xor(c, w)), 8));
  }

  lemma ByteStepIs(c: Word, b: Byte)
    ensures ByteStep(c, b) == BitSteps(Xor(c, Wide(b)), 8)
  {}

  lemma LowParts(c: Word, w: Word)
    ensures Low8(Xor(c, w)) == Low8(Xor(c, Wide(Byte0(w))))
    ensures Down8(Xor(c, w)) == Xor(Down8(c), Down8(w)) && Down8(Xor(c, Wide(Byte0(w)))) == Down8(c)
  {
    hide *;
    WideByte0(w);
    LowXor(c, w);
    DownXor(c, w);
    DownIgnoresByte(c, Byte0(w));
  }

  lemma WideByte0(w: Word)
    ensures Wide(Byte0(w)) == Low8(w)
  {}

  lemma LowXor(c: Word, w: Word)
    ensures Low8(Xor(c, w)) == Low8(Xor(c, Low8(w)))
  {}

  lemma DownXor(c: Word, w: Word)
    ensures Down8(Xor(c, w)) == Xor(Down8(c), Down8(w))
  {}

  lemma NothingAbove(w: Word)
    ensures Down8(Down8(Down8(Down8(w)))) == 0
  {}

  /** Four bytes of a word enter the register as if all at once. */
  lemma FeedWord(c: Word, w: Word)
    ensures FeedBytes(c, WordBytes(w)) == BitSteps(BitSteps(BitSteps(BitSteps(Xor(c, w), 8), 8), 8), 8)
  {
    hide *;
    var w1, w2, w3 := Down8(w), Down8(Down8(w)), Down8(Down8(Down8(w)));
    var c1 := ByteStep(c, Byte0(w));
    var c2 := ByteStep(c1, Byte0(w1));
    var c3 := ByteStep(c2, Byte0(w2));
    var c4 := ByteStep(c3, Byte0(w3));
    FeedByte0(c, w);
    FeedByte0(c1, w1);
    FeedByte0(c2, w2);
    FeedByte0(c3, w3);
    NothingAbove(w);
    XorLaws(c4, 0, 0);
    FeedFour(c, w);
  }

  lemma FeedFour(c: Word, w: Word)
    ensures var s := WordBytes(w);
            FeedBytes(c, s) == ByteStep(ByteStep(ByteStep(ByteStep(c, Byte0(w)), Byte0(Down8(w))), Byte0(Down8(Down8(w)))),
                                        Byte0(Down8(Down8(Down8(w)))))
  {
    hide ByteStep, Byte0, Down8;
    var s := WordBytes(w);
    assert s[1..][1..][1..][1..] == [];
    FeedOne(ByteStep(ByteStep(ByteStep(c, s[0]), s[1]), s[2]), s[3]);
    assert s[1..][1..][1..] == [s[3]];
    assert FeedBytes(c, s) == FeedBytes(ByteStep(c, s[0]), s[1..]);
    assert FeedBytes(ByteStep(c, s[0]), s[1..]) == FeedBytes(ByteStep(ByteStep(c, s[0]), s[1]), s[1..][1..]);
  }

  lemma ClockOnes()
    ensures BitSteps(0xFFFF_FFFF, 8) == 0x2DFD_1072 && BitSteps(0x2DFD_1072, 8) == 0xBE26_ED00
    ensures BitSteps(0xBE26_ED00, 8) == 0x00BE_26ED && BitSteps(0x00BE_26ED, 8) == 0xDEBB_20E3
  {
    EightSteps(0xFFFF_FFFF);
    EightSteps(0x2DFD_1072);
    EightSteps(0xBE26_ED00);
    EightSteps(0x00BE_26ED);
  }

  lemma ComplementIs(r: Word)
    ensures Xor(r, Complement(r)) == 0xFFFF_FFFF && Complement(0xDEBB_20E3) == 0x2144_DF1C
  {}

  /** A message followed by its own checksum, least significant byte first, has the same checksum whatever
      the message is. */
  lemma Residue(data: seq<Byte>)
    ensures BitwiseCrc(data + WordBytes(BitwiseCrc(data))) == 0x2144_DF1C
  {
    hide *;
    var r := FeedBytes(SEED, data);
    var w := Complement(r);
    BytewiseCrc(data);
    BytewiseCrc(data + WordBytes(w));
    FeedBytesSplit(SEED, data, WordBytes(w));
    FeedWord(r, w);
    ComplementIs(r);
    ClockOnes();
  }

  lemma KnownStep(c: Word, b: Byte, r: Word, data: seq<Byte>, next: seq<Byte>)
    requires BitStep(BitStep(BitStep(BitStep(BitStep(BitStep(BitStep(BitStep(Xor(c, Wide(b)))))))))) == r
    requires FeedBytes(SEED, data) == c && next == data + [b]
    ensures FeedBytes(SEED, next) == r
  {
    hide BitStep, Xor, Wide, FeedBytes;
    EightSteps(Xor(c, Wide(b)));
    FeedBytesSplit(SEED, data, [b]);
    FeedOne(c, b);
  }

  /** The checksum of the digits from 1 to 9, the check value published for this CRC. */
  lemma CheckValue()
    ensures BitwiseCrc([0x31, 0x32, 0x33, 0x34, 0x35, 0x36, 0x37, 0x38, 0x39]) == 0xCBF4_3926
  {
    hide FeedBytes, BitwiseCrc;
    var digits: seq<Byte> := [0x31, 0x32, 0x33, 0x34, 0x35, 0x36, 0x37, 0x38, 0x39];
    NothingFed();
    KnownStep(0xFFFF_FFFF, 0x31, 0x7C23_1048, digits[..0], digits[..1]);
    KnownStep(0x7C23_1048, 0x32, 0xB0AC_BB32, digits[..1], digits[..2]);
    KnownStep(0xB0AC_BB32, 0x33, 0x77B7_9C2D, digits[..2], digits[..3]);
    KnownStep(0x77B7_9C2D, 0x34, 0x641C_1F5C, digits[..3], digits[..4]);
    KnownStep(0x641C_1F5C, 0x35, 0x340A_C5E3, digits[..4], digits[..5]);
    KnownStep(0x340A_C5E3, 0x36, 0xF68D_2C9E, digits[..5], digits[..6]);
    KnownStep(0xF68D_2C9E, 0x37, 0xAFFC_9660, digits[..6], digits[..7]);
    KnownStep(0xAFFC_9660, 0x38, 0x651F_2550, digits[..7], digits[..8]);
    KnownStep(0x651F_2550, 0x39, 0x340B_C6D9, digits[..8], digits[..9]);
    assert digits[..9] == digits;
    BytewiseCrc(digits);
  }

  lemma NothingFed()
    ensures FeedBytes(SEED, []) == 0xFFFF_FFFF
  {}
}
