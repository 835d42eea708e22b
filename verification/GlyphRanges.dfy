/** ImFontGlyphRangesBuilder (imgui.h, imgui_draw.cpp): a set of code points kept as bits of
    32-bit words, turned into a zero-terminated list of ranges and back. */
module GlyphRanges {
  import opened Words

  const CODEPOINT_MAX: nat := 0xFFFF
  const WORDS: nat := 2048

  type CodePoint = n: nat | n <= CODEPOINT_MAX

  // ---- Bits ----

  /** 1u << k. */
  function Mask(k: Word): Word
    requires k < 32
  {
    1 << k
  }

  function And(a: Word, b: Word): Word { a & b }

  function Or(a: Word, b: Word): Word { a | b }

  function BitOf(w: Word, k: Word): bool
    requires k < 32
  {
    And(w, Mask(k)) != 0
  }

  function SetBitOf(w: Word, k: Word): Word
    requires k < 32
  {
    Or(w, Mask(k))
  }

  function ToWord(k: nat): Word
    requires k < 32
  {
    k as Word
  }

  function FromWord(w: Word): nat { w as nat }

  lemma FromTo(k: nat)
    requires k < 32
    ensures FromWord(ToWord(k)) == k && ToWord(k) < 32
  {
    NarrowWord(k);
  }

  function BitIndex(n: CodePoint): (k: Word)
    ensures k < 32
  {
    FromTo(n % 32);
    ToWord(n % 32)
  }

  lemma BitIndexInjective(n: CodePoint, m: CodePoint)
    requires BitIndex(n) == BitIndex(m)
    ensures n % 32 == m % 32
  {
    hide ToWord, FromWord;
    FromTo(n % 32);
    FromTo(m % 32);
  }

  lemma MasksDisjoint(j: Word, k: Word)
    requires j < 32 && k < 32
    ensures Mask(j) != 0 && (j != k ==> And(Mask(j), Mask(k)) == 0)
  {}

  lemma OrAnd(w: Word, a: Word, b: Word)
    requires And(a, b) == 0
    ensures And(Or(w, a), b) == And(w, b)
  {
    assert (w | a) & b == (w & b) | (a & b);
  }

  lemma OrSelf(w: Word, a: Word)
    requires a != 0
    ensures And(Or(w, a), a) != 0
  {}

  lemma SetThenGet(w: Word, j: Word, k: Word)
    requires j < 32 && k < 32
    ensures BitOf(SetBitOf(w, j), k) <==> j == k || BitOf(w, k)
  {
    hide Mask, And, Or;
    MasksDisjoint(j, k);
    if j == k {
      OrSelf(w, Mask(j));
    } else {
      OrAnd(w, Mask(j), Mask(k));
    }
  }

  lemma NoBits(k: Word)
    requires k < 32
    ensures !BitOf(0, k)
  {}

  class Builder {
    var usedChars: array<Word>

    ghost predicate Valid()
      reads this, usedChars
    {
      usedChars.Length == WORDS
    }

    function GetBit(n: CodePoint): bool
      requires Valid()
      reads this, usedChars
    {
      BitOf(usedChars[n / 32], BitIndex(n))
    }

    /** The code points whose bit is set. */
    ghost function Chars(): (cs: set<CodePoint>)
      requires Valid()
      reads this, usedChars
      ensures forall n: CodePoint :: n in cs <==> GetBit(n)
    {
      set n: CodePoint | GetBit(n)
    }

    constructor ()
      ensures Valid() && fresh(usedChars) && Chars() == {}
    {
      usedChars := new Word[WORDS](i => 0);
      new;
      forall n: CodePoint ensures !GetBit(n) {
        NoBits(BitIndex(n));
      }
    }

    method SetBit(n: CodePoint)
      requires Valid()
      modifies usedChars
      ensures Valid() && Chars() == old(Chars()) + {n}
    {
      hide BitOf, SetBitOf, BitIndex;
      var off := n / 32;
      ghost var w := usedChars[off];
      usedChars[off] := SetBitOf(usedChars[off], BitIndex(n));
      forall m: CodePoint ensures GetBit(m) <==> m == n || old(GetBit(m)) {
        SetThenGet(w, BitIndex(n), BitIndex(m));
        if m / 32 == off && BitIndex(m) == BitIndex(n) {
          BitIndexInjective(m, n);
        }
      }
    }

    method AddInterval(lo: CodePoint, hi: CodePoint)
      requires Valid()
      modifies usedChars
      ensures Valid() && Chars() == old(Chars()) + Interval(lo, hi)
    {
      hide BitOf, BitIndex;
      var c: nat := lo;
      while c <= hi && c <= CODEPOINT_MAX
        invariant Valid() && (c == lo || lo <= c <= (hi as int) + 1)
        invariant Chars() == old(Chars()) + Interval(lo, c - 1)
      {
        SetBit(c);
        assert Interval(lo, c) == Interval(lo, c - 1) + {c};
        c := c + 1;
      }
      assert Interval(lo, c - 1) == Interval(lo, hi);
    }

    /** Adds every code point of every range, up to the first range that starts with zero. */
    method AddRanges(ranges: seq<CodePoint>)
      requires Valid() && Terminated(ranges)
      modifies usedChars
      ensures Valid() && Chars() == old(Chars()) + Covered(ranges)
    {
      hide BitOf, BitIndex, Chars;
      var p := 0;
      while ranges[p] != 0
        invariant Valid() && p <= |ranges| && Terminated(ranges[p..])
        invariant Chars() + Covered(ranges[p..]) == old(Chars()) + Covered(ranges)
        decreases |ranges| - p
      {
        assert ranges[p..][2..] == ranges[p + 2..];
        AddInterval(ranges[p], ranges[p + 1]);
        p := p + 2;
      }
      assert Covered(ranges[p..]) == {};
    }

    method EndOfRun(n: CodePoint) returns (e: CodePoint)
      requires Valid() && GetBit(n)
      ensures e == RunEnd(Chars(), n)
    {
      hide BitOf, BitIndex;
      e := n;
      while e < CODEPOINT_MAX && GetBit(e + 1)
        invariant n <= e && e in Chars() && RunEnd(Chars(), e) == RunEnd(Chars(), n)
      {
        e := e + 1;
      }
    }

    /** Appends the maximal runs of set bits and a final zero. */
    method BuildRanges(outRanges: seq<CodePoint>) returns (ranges: seq<CodePoint>)
      requires Valid()
      ensures ranges == outRanges + RangesFrom(Chars(), 0)
    {
      hide BitOf, BitIndex, RangesFrom, RunEnd;
      ghost var cs := Chars();
      ranges := outRanges;
      var n: nat := 0;
      while n <= CODEPOINT_MAX
        invariant n <= CODEPOINT_MAX + 1
        invariant ranges + RangesFrom(cs, n) == outRanges + RangesFrom(cs, 0)
      {
        NextRange(cs, n);
        if GetBit(n) {
          var e: nat := EndOfRun(n);
          ghost var tail := RangesFrom(cs, e + 1);
          assert ranges + ([n, e] + tail) == (ranges + [n] + [e]) + tail;
          ranges := ranges + [n];
          n := e;
          ranges := ranges + [n];
        }
        n := n + 1;
      }
      NextRange(cs, 0);
      ranges := ranges + [0];
    }
  }

  lemma NextRange(cs: set<CodePoint>, n: CodePoint)
    ensures var next: nat := n;
            n !in cs ==> RangesFrom(cs, n) == RangesFrom(cs, next + 1)
    ensures n in cs ==> var e: nat := RunEnd(cs, n); RangesFrom(cs, n) == [n, e] + RangesFrom(cs, e + 1)
    ensures RangesFrom(cs, CODEPOINT_MAX + 1) == [0]
  {}

  // ---- What the ranges mean ----

  predicate Between(lo: int, n: int, hi: int) { lo <= n <= hi }

  ghost function Interval(lo: CodePoint, hi: int): set<CodePoint> {
    set n: CodePoint | Between(lo, n, hi)
  }

  /** Pairs of bounds, then a zero where a pair would start. */
  predicate Terminated(ranges: seq<CodePoint>) {
    ranges != [] && (ranges[0] != 0 ==> |ranges| > 2 && Terminated(ranges[2..]))
  }

  /** The code points a list of ranges names: nothing after the first zero lower bound. */
  ghost function Covered(ranges: seq<CodePoint>): set<CodePoint> {
    if |ranges| < 2 || ranges[0] == 0 then {} else Interval(ranges[0], ranges[1]) + Covered(ranges[2..])
  }

  /** The last code point of the run of members that n starts. */
  ghost function RunEnd(cs: set<CodePoint>, n: CodePoint): (e: CodePoint)
    requires n in cs
    ensures n <= e && Interval(n, e) <= cs && (e == CODEPOINT_MAX || e + 1 !in cs)
    decreases CODEPOINT_MAX - n
  {
    if n < CODEPOINT_MAX && n + 1 in cs then RunEnd(cs, n + 1) else n
  }

  /** The ranges of the members from n on, and the terminator. */
  ghost function RangesFrom(cs: set<CodePoint>, n: nat): seq<CodePoint>
    requires n <= CODEPOINT_MAX + 1
    decreases CODEPOINT_MAX + 1 - n
  {
    if n > CODEPOINT_MAX then [0]
    else if n !in cs then RangesFrom(cs, n + 1)
    else [n, RunEnd(cs, n)] + (var next: nat := RunEnd(cs, n); RangesFrom(cs, next + 1))
  }

  lemma {:induction false} RangesCover(cs: set<CodePoint>, n: nat)
    requires 1 <= n <= CODEPOINT_MAX + 1
    ensures Terminated(RangesFrom(cs, n))
    ensures Covered(RangesFrom(cs, n)) == set c: CodePoint | c in cs && n <= c
    decreases CODEPOINT_MAX + 1 - n
  {
    if n <= CODEPOINT_MAX {
      if n !in cs {
        RangesCover(cs, n + 1);
      } else {
        var e: nat := RunEnd(cs, n);
        RangesCover(cs, e + 1);
        var rs := RangesFrom(cs, n);
        assert rs[2..] == RangesFrom(cs, e + 1);
        assert Covered(rs) == Interval(n, e) + Covered(RangesFrom(cs, e + 1));
      }
    }
  }

  /** Rebuilding from the ranges restores the set if and only if it does not contain code point zero;
      with zero in it, the first range reads as the terminator and nothing is restored. */
  lemma RoundTrip(cs: set<CodePoint>)
    ensures Terminated(RangesFrom(cs, 0))
    ensures Covered(RangesFrom(cs, 0)) == if 0 in cs then {} else cs
  {
    if 0 !in cs {
      RangesCover(cs, 1);
    }
  }

  /** Bounds of successive ranges increase, with a gap of at least one code point between ranges. */
  ghost predicate SortedFrom(ranges: seq<CodePoint>, n: nat) {
    if |ranges| < 2 then ranges == [0]
    else var hi: nat := ranges[1]; n <= ranges[0] <= hi && SortedFrom(ranges[2..], hi + 2)
  }

  /** The ranges are sorted, disjoint and never adjacent, hence maximal. */
  lemma {:induction false} RangesSorted(cs: set<CodePoint>, n: nat)
    requires n <= CODEPOINT_MAX + 1
    ensures SortedFrom(RangesFrom(cs, n), n)
    ensures n <= CODEPOINT_MAX && n !in cs ==> SortedFrom(RangesFrom(cs, n), n + 1)
    decreases CODEPOINT_MAX + 1 - n
  {
    if n <= CODEPOINT_MAX {
      if n !in cs {
        RangesSorted(cs, n + 1);
        Weaken(RangesFrom(cs, n), n, n + 1);
      } else {
        var e: nat := RunEnd(cs, n);
        RangesSorted(cs, e + 1);
        assert RangesFrom(cs, n)[2..] == RangesFrom(cs, e + 1);
      }
    }
  }

  lemma Weaken(ranges: seq<CodePoint>, n: nat, m: nat)
    requires n <= m && SortedFrom(ranges, m)
    ensures SortedFrom(ranges, n)
  {}

  /** Every code point but zero: one range up to the last of the plane, and the terminator. */
  lemma WholePlane()
    ensures RangesFrom(Interval(1, 0xFFFF), 0) == [1, 0xFFFF, 0]
    ensures Covered([1, 0xFFFF, 0]) == Interval(1, 0xFFFF) && CODEPOINT_MAX == 0xFFFF
  {
    hide RangesFrom, RunEnd;
    var cs := Interval(1, 0xFFFF);
    NextRange(cs, 0);
    NextRange(cs, 1);
    var e: nat := RunEnd(cs, 1);
    assert e == CODEPOINT_MAX || e + 1 in cs;
    assert [1, 0xFFFF, 0][2..] == [0];
  }
}
