/** The SMBIOS table walker (GetHardware.c), against a printer of well-formed tables in the layout of
    sections 6.1.2 and 6.1.3 of DSP0134. */
module Smbios {
  import opened Common

  // ---- Printing ----

  /** A string of a structure: at least one byte, none of them zero. */
  predicate Text(s: seq<Octet>) { s != [] && forall i :: 0 <= i < |s| ==> s[i] != 0 }

  datatype Structure = Structure(kind: Octet, handle: (Octet, Octet), body: seq<Octet>, strings: seq<seq<Octet>>)

  /** Structures that fit their length byte and hold what their kind must hold. */
  predicate WellFormed(s: Structure) {
    && |s.body| <= 251
    && (forall i :: 0 <= i < |s.strings| ==> Text(s.strings[i]))
    && (s.kind == SYSTEM ==> |s.body| >= 20) && (s.kind == PROCESSOR ==> |s.body| >= 12)
  }

  const SYSTEM: Octet := 1
  const PROCESSOR: Octet := 4

  /** The strings, each closed by a zero, and one zero more; two zeros when there are none. */
  function StringArea(ss: seq<seq<Octet>>): (a: seq<Octet>)
    ensures |a| >= 2
  {
    if ss == [] then [0, 0]
    else if |ss| == 1 then ss[0] + [0, 0]
    else ss[0] + [0] + StringArea(ss[1..])
  }

  function Print(s: Structure): (p: seq<Octet>)
    requires WellFormed(s)
    ensures |p| == 4 + |s.body| + |StringArea(s.strings)|
  {
    [s.kind, 4 + |s.body|, s.handle.0, s.handle.1] + s.body + StringArea(s.strings)
  }

  ghost predicate AllWellFormed(table: seq<Structure>) {
    forall i :: 0 <= i < |table| ==> WellFormed(table[i])
  }

  function PrintTable(table: seq<Structure>): seq<Octet>
    requires AllWellFormed(table)
  {
    if table == [] then [] else Print(table[0]) + PrintTable(table[1..])
  }

  // ---- Walking ----

  /** A byte of the mapped table. Behind its last byte nothing is mapped; the zero given for it there only
      makes the walk a function, and a query that would read it faults. */
  function ByteAt(mem: seq<Octet>, i: nat): Octet { if i < |mem| then mem[i] else 0 }

  function Field(mem: seq<Octet>, start: nat, n: nat): (f: seq<Octet>)
    ensures |f| == n && (start + n <= |mem| ==> f == mem[start..start + n])
  {
    if n == 0 then [] else Field(mem, start, n - 1) + [ByteAt(mem, start + n - 1)]
  }

  /** The first double zero from q on, or the end. */
  function SkipText(mem: seq<Octet>, q: nat): (r: nat)
    ensures r >= q
    decreases |mem| - q
  {
    if q < |mem| && (mem[q] != 0 || ByteAt(mem, q + 1) != 0) then SkipText(mem, q + 1) else q
  }

  function Next(mem: seq<Octet>, p: nat): (r: nat)
    requires p < |mem|
    ensures r >= p + 2
  {
    SkipText(mem, p + ByteAt(mem, p + 1)) + 2
  }

  /** The positions at which the walk looks at a header. */
  function Walk(mem: seq<Octet>, p: nat): (ps: seq<nat>)
    ensures forall i :: 0 <= i < |ps| ==> ps[i] < |mem|
    decreases |mem| - p
  {
    if p >= |mem| then [] else [p] + Walk(mem, Next(mem, p))
  }

  /** The step from the header at p reads only the table: the length byte is in it, and the scan does not
      come to a zero in the very last byte, behind which it would look for a second one. */
  predicate StepInside(mem: seq<Octet>, p: nat)
    requires p < |mem|
  {
    p + 1 < |mem| && Next(mem, p) != |mem| + 1
  }

  lemma {:induction false} SkipRun(mem: seq<Octet>, q: nat, n: nat)
    requires q + n <= |mem| && forall i :: q <= i < q + n ==> mem[i] != 0
    ensures SkipText(mem, q) == SkipText(mem, q + n)
    decreases n
  {
    if n > 0 {
      assert mem[q] != 0;
      SkipRun(mem, q + 1, n - 1);
    }
  }

  /** The scan passes every string and stops at the double zero that closes the area, never inside. */
  lemma {:induction false} SkipStrings(mem: seq<Octet>, q: nat, ss: seq<seq<Octet>>)
    requires q + |StringArea(ss)| <= |mem| && mem[q..q + |StringArea(ss)|] == StringArea(ss)
    requires forall i :: 0 <= i < |ss| ==> Text(ss[i])
    ensures SkipText(mem, q) == q + |StringArea(ss)| - 2
    decreases |ss|
  {
    var area := mem[q..q + |StringArea(ss)|];
    assert forall i :: 0 <= i < |area| ==> mem[q + i] == area[i];
    if ss == [] {
      assert area[0] == 0 && area[1] == 0;
    } else {
      var n := |ss[0]|;
      forall i | q <= i < q + n ensures mem[i] != 0 {
        assert mem[i] == area[i - q] == ss[0][i - q];
      }
      SkipRun(mem, q, n);
      assert mem[q + n] == area[n] == 0;
      assert mem[q + n + 1] == area[n + 1];
      if |ss| == 1 {
        assert area[n + 1] == 0;
      } else {
        var rest := StringArea(ss[1..]);
        assert area == ss[0] + [0] + rest;
        assert mem[q + n + 1..q + |area|] == area[n + 1..] == rest;
        assert ss[1..][0] == ss[1] && rest[0] == ss[1][0];
        assert mem[q + n + 1] != 0;
        SkipStrings(mem, q + n + 1, ss[1..]);
      }
    }
  }

  /** The structure printed at a position. */
  predicate PrintedAt(mem: seq<Octet>, p: nat, s: Structure) {
    WellFormed(s) && p + |Print(s)| <= |mem| && mem[p..p + |Print(s)|] == Print(s)
  }

  /** From the start of a printed structure the walk goes exactly to its end. */
  lemma NextPrinted(mem: seq<Octet>, p: nat, s: Structure)
    requires PrintedAt(mem, p, s)
    ensures Next(mem, p) == p + |Print(s)| && mem[p] == s.kind
    ensures StepInside(mem, p)
  {
    var printed := mem[p..p + |Print(s)|];
    assert mem[p] == printed[0] && mem[p + 1] == printed[1];
    var q := p + 4 + |s.body|;
    assert mem[q..q + |StringArea(s.strings)|] == printed[4 + |s.body|..] == StringArea(s.strings);
    SkipStrings(mem, q, s.strings);
  }

  /** Where each structure of a table starts, the first at p. */
  function Starts(table: seq<Structure>, p: nat): (ps: seq<nat>)
    requires AllWellFormed(table)
    ensures |ps| == |table|
  {
    if table == [] then [] else [p] + Starts(table[1..], p + |Print(table[0])|)
  }

  lemma SuffixSplit(mem: seq<Octet>, p: nat, a: seq<Octet>, b: seq<Octet>)
    requires p <= |mem| && mem[p..] == a + b
    ensures p + |a| <= |mem| && mem[p..p + |a|] == a && mem[p + |a|..] == b
  {
    assert |mem[p..]| == |a| + |b|;
    assert mem[p..p + |a|] == mem[p..][..|a|];
    assert mem[p + |a|..] == mem[p..][|a|..];
  }

  lemma TableStep(mem: seq<Octet>, p: nat, table: seq<Structure>)
    requires AllWellFormed(table) && table != [] && p <= |mem| && mem[p..] == PrintTable(table)
    ensures var n := |Print(table[0])|;
            && p + n <= |mem| && PrintedAt(mem, p, table[0]) && mem[p + n..] == PrintTable(table[1..])
            && Walk(mem, p) == [p] + Walk(mem, p + n)
  {
    hide Next, StringArea;
    SuffixSplit(mem, p, Print(table[0]), PrintTable(table[1..]));
    NextPrinted(mem, p, table[0]);
  }

  /** The structures of a table printed one behind the other from p on. */
  ghost predicate PrintedFrom(mem: seq<Octet>, p: nat, table: seq<Structure>)
    decreases |table|
  {
    table == [] || (PrintedAt(mem, p, table[0]) && PrintedFrom(mem, p + |Print(table[0])|, table[1..]))
  }

  lemma FirstPrinted(mem: seq<Octet>, p: nat, table: seq<Structure>)
    requires AllWellFormed(table)
    ensures table == [] ==> PrintTable(table) == [] && Starts(table, p) == [] && PrintedFrom(mem, p, table)
    ensures table != [] ==>
              var next := p + |Print(table[0])|;
              && Starts(table, p) == [p] + Starts(table[1..], next)
              && (PrintedFrom(mem, p, table) <==> PrintedAt(mem, p, table[0]) && PrintedFrom(mem, next, table[1..]))
  {
    hide Print, PrintedAt;
  }

  lemma WalkEnds(mem: seq<Octet>)
    ensures Walk(mem, |mem|) == []
  {}

  /** The walk over a printed table visits exactly its structures, in order, and stops at its end. */
  lemma {:induction false} WalkPrinted(mem: seq<Octet>, p: nat, table: seq<Structure>)
    requires AllWellFormed(table) && p <= |mem| && mem[p..] == PrintTable(table)
    ensures Walk(mem, p) == Starts(table, p) && PrintedFrom(mem, p, table)
    decreases |table|
  {
    hide Print, PrintTable, Next, StringArea, PrintedAt, Walk, Starts, WellFormed, PrintedFrom;
    FirstPrinted(mem, p, table);
    if table == [] {
      assert |mem[p..]| == 0;
      WalkEnds(mem);
    } else {
      TableStep(mem, p, table);
      WalkPrinted(mem, p + |Print(table[0])|, table[1..]);
    }
  }

  /** Each structure is printed where it starts. */
  lemma {:induction false} StartsPrinted(mem: seq<Octet>, p: nat, table: seq<Structure>)
    requires AllWellFormed(table) && PrintedFrom(mem, p, table)
    ensures forall i :: 0 <= i < |table| ==> PrintedAt(mem, Starts(table, p)[i], table[i])
    decreases |table|
  {
    hide Print, PrintedAt, WellFormed;
    if table != [] {
      StartsPrinted(mem, p + |Print(table[0])|, table[1..]);
    }
  }

  // ---- Reading what is visited ----

  function Digit(n: nat): (c: char)
    requires n < 16
  {
    "0123456789ABCDEF"[n]
  }

  /** Bytes in capital hexadecimal, two digits each. */
  function Hex(s: seq<Octet>): (t: string)
    ensures |t| == 2 * |s|
  {
    if s == [] then "" else Hex(s[..|s| - 1]) + [Digit(s[|s| - 1] / 16), Digit(s[|s| - 1] % 16)]
  }

  lemma DigitInjective(a: nat, b: nat)
    requires a < 16 && b < 16 && Digit(a) == Digit(b)
    ensures a == b
  {}

  /** Different identifiers have different texts, so comparing texts compares identifiers. */
  lemma {:induction false} HexInjective(a: seq<Octet>, b: seq<Octet>)
    requires Hex(a) == Hex(b)
    ensures a == b
    decreases |a|
  {
    if a != [] {
      hide Digit, Hex;
      var n := |a| - 1;
      HexLast(a);
      HexLast(b);
      SameEnd(Hex(a[..n]), Digit(a[n] / 16), Digit(a[n] % 16), Hex(b[..n]), Digit(b[n] / 16), Digit(b[n] % 16));
      DigitInjective(a[n] / 16, b[n] / 16);
      DigitInjective(a[n] % 16, b[n] % 16);
      HexInjective(a[..n], b[..n]);
      assert a == a[..n] + [a[n]] && b == b[..n] + [b[n]];
    }
  }

  lemma HexLast(s: seq<Octet>)
    requires s != []
    ensures Hex(s) == Hex(s[..|s| - 1]) + [Digit(s[|s| - 1] / 16), Digit(s[|s| - 1] % 16)]
  {
    hide Digit;
  }

  lemma SameEnd(x: string, a: char, b: char, x': string, a': char, b': char)
    requires x + [a, b] == x' + [a', b']
    ensures x == x' && a == a' && b == b'
  {
    var t, n := x + [a, b], |x|;
    assert |x'| == n;
    assert t[n] == a == a' && t[n + 1] == b == b' && t[..n] == x == x';
  }

  function UuidText(u: seq<Octet>): (t: string)
    requires |u| == 16
    ensures |t| == 36
  {
    Hex(u[..4]) + "-" + Hex(u[4..6]) + "-" + Hex(u[6..8]) + "-" + Hex(u[8..10]) + "-" + Hex(u[10..])
  }

  lemma UuidTextInjective(a: seq<Octet>, b: seq<Octet>)
    requires |a| == |b| == 16 && UuidText(a) == UuidText(b)
    ensures a == b
  {
    hide Hex;
    var a0, a1, a2, a3, a4 := Hex(a[..4]), Hex(a[4..6]), Hex(a[6..8]), Hex(a[8..10]), Hex(a[10..]);
    var b0, b1, b2, b3, b4 := Hex(b[..4]), Hex(b[4..6]), Hex(b[6..8]), Hex(b[8..10]), Hex(b[10..]);
    PeelGroup(a0 + "-" + a1 + "-" + a2 + "-" + a3, a4, b0 + "-" + b1 + "-" + b2 + "-" + b3, b4);
    PeelGroup(a0 + "-" + a1 + "-" + a2, a3, b0 + "-" + b1 + "-" + b2, b3);
    PeelGroup(a0 + "-" + a1, a2, b0 + "-" + b1, b2);
    PeelGroup(a0, a1, b0, b1);
    HexInjective(a[..4], b[..4]);
    HexInjective(a[4..6], b[4..6]);
    HexInjective(a[6..8], b[6..8]);
    HexInjective(a[8..10], b[8..10]);
    HexInjective(a[10..], b[10..]);
    assert a == a[..4] + a[4..6] + a[6..8] + a[8..10] + a[10..];
    assert b == b[..4] + b[4..6] + b[6..8] + b[8..10] + b[10..];
  }

  lemma PeelGroup(x: string, g: string, x': string, g': string)
    requires x + "-" + g == x' + "-" + g' && |g| == |g'|
    ensures x == x' && g == g'
  {
    var t, n := x + "-" + g, |x|;
    assert |x'| == n;
    assert x == t[..n] && x' == t[..n] && g == t[n + 1..] && g' == t[n + 1..];
  }

  /** The processor identifier is printed from its last byte to its first. */
  function CpuText(id: seq<Octet>): (t: string)
    requires |id| == 8
    ensures |t| == 16
  {
    Hex([id[7], id[6], id[5], id[4], id[3], id[2], id[1], id[0]])
  }

  lemma CpuTextInjective(a: seq<Octet>, b: seq<Octet>)
    requires |a| == |b| == 8 && CpuText(a) == CpuText(b)
    ensures a == b
  {
    var x: seq<Octet> := [a[7], a[6], a[5], a[4], a[3], a[2], a[1], a[0]];
    var y: seq<Octet> := [b[7], b[6], b[5], b[4], b[3], b[2], b[1], b[0]];
    HexInjective(x, y);
    forall i | 0 <= i < 8 ensures a[i] == b[i] {
      assert x[7 - i] == a[i] && y[7 - i] == b[i];
    }
  }

  const NONE: string := "NONE"

  /** The text for the first system structure at the given positions. */
  function SerialAt(mem: seq<Octet>, ps: seq<nat>): string {
    if ps == [] then NONE
    else if ByteAt(mem, ps[0]) == SYSTEM then UuidText(Field(mem, ps[0] + 8, 16))
    else SerialAt(mem, ps[1..])
  }

  /** The texts of the processor structures at the given positions. */
  function CpusAt(mem: seq<Octet>, ps: seq<nat>): (ts: seq<string>)
    ensures forall i :: 0 <= i < |ts| ==> |ts[i]| == 16
  {
    if ps == [] then []
    else if ByteAt(mem, ps[0]) == PROCESSOR then [CpuText(Field(mem, ps[0] + 8, 8))] + CpusAt(mem, ps[1..])
    else CpusAt(mem, ps[1..])
  }

  // ---- Staying inside the table ----

  predicate Positions(mem: seq<Octet>, ps: seq<nat>) { forall i :: 0 <= i < |ps| ==> ps[i] < |mem| }

  /** Every byte the serial query reads is in the table: it stops at the first system structure. */
  predicate SerialInside(mem: seq<Octet>, ps: seq<nat>)
    requires Positions(mem, ps)
  {
    if ps == [] then true
    else if mem[ps[0]] == SYSTEM then ps[0] + 24 <= |mem|
    else StepInside(mem, ps[0]) && SerialInside(mem, ps[1..])
  }

  /** Every byte the processor query reads is in the table: it looks at all structures. */
  predicate CpusInside(mem: seq<Octet>, ps: seq<nat>)
    requires Positions(mem, ps)
  {
    if ps == [] then true
    else (mem[ps[0]] == PROCESSOR ==> ps[0] + 16 <= |mem|) && StepInside(mem, ps[0]) && CpusInside(mem, ps[1..])
  }

  /** Cut off before its last byte, even the smallest table makes both queries read behind it. */
  lemma CutOffOverreads()
    ensures var table := [Structure(127, (0, 0), [], [])];
            AllWellFormed(table) && PrintTable(table) == [127, 4, 0, 0, 0, 0]
    ensures var mem: seq<Octet> := [127, 4, 0, 0, 0];
            !SerialInside(mem, Walk(mem, 0)) && !CpusInside(mem, Walk(mem, 0))
  {
    var mem: seq<Octet> := [127, 4, 0, 0, 0];
    assert SkipText(mem, 4) == 4;
    WalkStep(mem, 0);
    var last := Structure(127, (0, 0), [], []);
    assert PrintTable([last]) == Print(last) + PrintTable([]);
  }

  lemma HeaderInside(mem: seq<Octet>, p: nat, s: Structure)
    requires PrintedAt(mem, p, s)
    ensures p < |mem| && StepInside(mem, p) && mem[p] == s.kind
    ensures (s.kind == SYSTEM ==> p + 24 <= |mem|) && (s.kind == PROCESSOR ==> p + 16 <= |mem|)
  {
    hide StringArea, Next;
    NextPrinted(mem, p, s);
  }

  /** On a well-formed table neither query reads behind its end. */
  lemma {:induction false} QueriesStayInside(mem: seq<Octet>, ps: seq<nat>, table: seq<Structure>)
    requires |ps| == |table| && Positions(mem, ps)
    requires forall i :: 0 <= i < |table| ==> PrintedAt(mem, ps[i], table[i])
    ensures SerialInside(mem, ps) && CpusInside(mem, ps)
    decreases |ps|
  {
    hide PrintedAt, StepInside;
    if ps != [] {
      assert PrintedAt(mem, ps[0], table[0]);
      HeaderInside(mem, ps[0], table[0]);
      QueriesStayInside(mem, ps[1..], table[1..]);
    }
  }

  // ---- What a table says ----

  /** The first system structure's identifier. */
  function SerialOf(table: seq<Structure>): string
    requires AllWellFormed(table)
  {
    if table == [] then NONE
    else if table[0].kind == SYSTEM then UuidText(table[0].body[4..20])
    else SerialOf(table[1..])
  }

  /** The processor identifiers in table order. */
  function CpuIds(table: seq<Structure>): (ids: seq<seq<Octet>>)
    requires AllWellFormed(table)
    ensures forall i :: 0 <= i < |ids| ==> |ids[i]| == 8
  {
    if table == [] then []
    else (if table[0].kind == PROCESSOR then [table[0].body[4..12]] else []) + CpuIds(table[1..])
  }

  function CpuTexts(ids: seq<seq<Octet>>): (ts: seq<string>)
    requires forall i :: 0 <= i < |ids| ==> |ids[i]| == 8
    ensures |ts| == |ids|
  {
    seq(|ids|, i requires 0 <= i < |ids| => CpuText(ids[i]))
  }

  lemma BodyAt(mem: seq<Octet>, p: nat, s: Structure, n: nat)
    requires PrintedAt(mem, p, s) && n <= |s.body| && 4 <= n
    ensures p + 4 + n <= |mem| && mem[p + 8..p + 4 + n] == s.body[4..n] == Field(mem, p + 8, n - 4)
  {
    hide StringArea;
    var printed, area := Print(s), StringArea(s.strings);
    KindAt(mem, p, s);
    forall i | 0 <= i < n - 4 ensures mem[p + 8..p + 4 + n][i] == s.body[4..n][i] {
      assert mem[p + 8 + i] == mem[p..p + |printed|][8 + i] == printed[8 + i] == s.body[4 + i];
    }
  }

  lemma {:induction false} ReadPrinted(mem: seq<Octet>, ps: seq<nat>, table: seq<Structure>)
    requires |ps| == |table| && AllWellFormed(table)
    requires forall i :: 0 <= i < |table| ==> PrintedAt(mem, ps[i], table[i])
    ensures SerialAt(mem, ps) == SerialOf(table) && CpusAt(mem, ps) == CpuTexts(CpuIds(table))
    decreases |ps|
  {
    hide UuidText, CpuText, Print;
    if ps != [] {
      var s, p, rest := table[0], ps[0], CpuIds(table[1..]);
      ReadPrinted(mem, ps[1..], table[1..]);
      assert PrintedAt(mem, p, s);
      KindAt(mem, p, s);
      if s.kind == SYSTEM {
        BodyAt(mem, p, s, 20);
      } else if s.kind == PROCESSOR {
        BodyAt(mem, p, s, 12);
        assert CpuTexts([s.body[4..12]] + rest) == [CpuText(s.body[4..12])] + CpuTexts(rest);
      }
      assert CpuTexts([] + rest) == CpuTexts(rest);
    }
  }

  lemma KindAt(mem: seq<Octet>, p: nat, s: Structure)
    requires PrintedAt(mem, p, s)
    ensures p < |mem| && mem[p] == s.kind
  {
    assert mem[p] == mem[p..p + |Print(s)|][0];
  }

  // ---- Duplicates ----

  /** The elements of a sequence without repetition, in the order first seen. */
  function FirstSeen<T(==,!new)>(s: seq<T>): (r: seq<T>)
    ensures forall x :: x in r <==> x in s
  {
    if s == [] then [] else FirstSeen(Front(s)) + if Last(s) in Front(s) then [] else [Last(s)]
  }

  const MAX_CPUS: nat := 8

  function FirstEight<T>(s: seq<T>): (r: seq<T>)
    ensures r <= s && |r| <= MAX_CPUS
  {
    if |s| <= MAX_CPUS then s else s[..MAX_CPUS]
  }

  /** One identifier met: kept if it is new and there is room. */
  function Store(found: seq<string>, id: string): seq<string> {
    if id in found || |found| >= MAX_CPUS then found else found + [id]
  }

  function StoreAll(found: seq<string>, ids: seq<string>): seq<string>
    decreases |ids|
  {
    if ids == [] then found else StoreAll(Store(found, ids[0]), ids[1..])
  }

  lemma {:induction false} StoreNext(found: seq<string>, ids: seq<string>, id: string)
    ensures StoreAll(found, ids + [id]) == Store(StoreAll(found, ids), id)
    decreases |ids|
  {
    if ids != [] {
      assert (ids + [id])[1..] == ids[1..] + [id];
      StoreNext(Store(found, ids[0]), ids[1..], id);
    } else {
      assert (ids + [id])[1..] == [];
    }
  }

  /** Keeping what is new while there is room keeps the first eight different ones. */
  lemma {:induction false} StoreKeepsFirst(ids: seq<string>)
    ensures StoreAll([], ids) == FirstEight(FirstSeen(ids))
    decreases |ids|
  {
    if ids != [] {
      var front, id := Front(ids), Last(ids);
      StoreKeepsFirst(front);
      assert ids == front + [id];
      StoreNext([], front, id);
    }
  }

  lemma {:induction false} FirstSeenTexts(ids: seq<seq<Octet>>)
    requires forall i :: 0 <= i < |ids| ==> |ids[i]| == 8
    ensures forall i :: 0 <= i < |FirstSeen(ids)| ==> |FirstSeen(ids)[i]| == 8
    ensures FirstSeen(CpuTexts(ids)) == CpuTexts(FirstSeen(ids))
    decreases |ids|
  {
    hide CpuText;
    forall i | 0 <= i < |FirstSeen(ids)| ensures |FirstSeen(ids)[i]| == 8 {
      assert FirstSeen(ids)[i] in ids;
    }
    if ids != [] {
      var front, id := Front(ids), Last(ids);
      FirstSeenTexts(front);
      assert Front(CpuTexts(ids)) == CpuTexts(front);
      assert CpuText(id) in CpuTexts(front) <==> id in front by {
        if CpuText(id) in CpuTexts(front) {
          var k :| 0 <= k < |front| && CpuTexts(front)[k] == CpuText(id);
          CpuTextInjective(front[k], id);
        }
        if id in front {
          var k :| 0 <= k < |front| && front[k] == id;
          assert CpuTexts(front)[k] == CpuText(id);
        }
      }
    }
  }

  // ---- Joining into a buffer of fixed size ----

  /** The bound of the source's room check, an unsigned 32-bit difference: it wraps for sizes below 3. */
  function RoomBound(size: nat): (b: nat)
    requires size < U32
    ensures b == if size >= 3 then size - 3 else U32 + size - 3
  {
    (size + U32 - 3) % U32
  }

  /** The text the join writes for a buffer of some size: separators and identifiers as long as the
      source's checks find room. */
  function JoinedIn(ids: seq<string>, size: nat): (t: string)
    requires 0 < size < U32 && forall i :: 0 <= i < |ids| ==> |ids[i]| == 16
    ensures size >= 3 ==> |t| < size
  {
    if ids == [] then ""
    else
      var t := JoinedIn(Front(ids), size);
      var u := if |ids| > 1 && |t| < RoomBound(size) then t + ", " else t;
      if |u| + 16 < size then u + Last(ids) else u
  }

  lemma {:induction false} SmallJoin(ids: seq<string>, size: nat)
    requires 0 < size < 3 && |ids| <= MAX_CPUS && forall i :: 0 <= i < |ids| ==> |ids[i]| == 16
    ensures |JoinedIn(ids, size)| == if ids == [] then 0 else 2 * (|ids| - 1)
    decreases |ids|
  {
    if ids != [] {
      SmallJoin(Front(ids), size);
    }
  }

  /** Every write of the join stays inside the buffer if and only if the size is at least 3 or there are
      no more identifiers than bytes; otherwise the wrapped room check lets a separator past the end. */
  lemma JoinStaysInside(ids: seq<string>, size: nat)
    requires 0 < size < U32 && |ids| <= MAX_CPUS && forall i :: 0 <= i < |ids| ==> |ids[i]| == 16
    ensures |JoinedIn(ids, size)| <= size <==> size >= 3 || |ids| <= size
  {
    if size < 3 {
      SmallJoin(ids, size);
    }
  }

  /** The list with a comma and a space between its elements. */
  function Commas(ids: seq<string>): string {
    if ids == [] then "" else if |ids| == 1 then ids[0] else Commas(Front(ids)) + ", " + Last(ids)
  }

  lemma {:induction false} CommasLength(ids: seq<string>)
    requires ids != [] && forall i :: 0 <= i < |ids| ==> |ids[i]| == 16
    ensures |Commas(ids)| == 18 * |ids| - 2
    decreases |ids|
  {
    if |ids| > 1 {
      CommasLength(Front(ids));
    }
  }

  /** The buffer holds the whole list if and only if it has room for it and its closing zero. */
  lemma {:induction false} JoinFits(ids: seq<string>, size: nat)
    requires 0 < size < U32 && (size >= 3 || |ids| <= MAX_CPUS) && forall i :: 0 <= i < |ids| ==> |ids[i]| == 16
    ensures JoinedIn(ids, size) == Commas(ids) <==> ids == [] || 18 * |ids| - 2 < size
    decreases |ids|
  {
    if ids != [] {
      CommasLength(ids);
      if size < 3 {
        SmallJoin(ids, size);
      } else if |ids| == 1 {
        assert JoinedIn(Front(ids), size) == "" && "" + Last(ids) == ids[0];
      } else if 18 * |ids| - 2 < size {
        CommasLength(Front(ids));
        JoinFits(Front(ids), size);
      }
    }
  }

  /** What a bounded string copy leaves, and a buffer filled up with zeros. */
  function Clip(t: string, size: nat): (r: string)
    requires size > 0
    ensures |r| < size && (|t| < size ==> r == t)
  {
    if |t| < size then t else t[..size - 1]
  }

  function Padded(t: string, size: nat): (r: string)
    requires |t| <= size
    ensures |r| == size
  {
    t + seq(size - |t|, _ => '\0')
  }

  /** The report for the processor texts met, in a buffer of some size. */
  function CpuReport(texts: seq<string>, size: nat): (t: string)
    requires 0 < size < U32 && forall i :: 0 <= i < |texts| ==> |texts[i]| == 16
    ensures Inside(texts, size) ==> |t| <= size
  {
    var kept := FirstEight(FirstSeen(texts));
    Kept16(texts);
    JoinStaysInside(kept, size);
    if kept == [] then Clip(NONE, size) else JoinedIn(kept, size)
  }

  /** No write passes the end of a buffer of that size. */
  predicate Inside(texts: seq<string>, size: nat) {
    size >= 3 || |FirstEight(FirstSeen(texts))| <= size
  }

  lemma Kept16(texts: seq<string>)
    requires forall i :: 0 <= i < |texts| ==> |texts[i]| == 16
    ensures forall i :: 0 <= i < |FirstEight(FirstSeen(texts))| ==> |FirstEight(FirstSeen(texts))[i]| == 16
  {
    forall i | 0 <= i < |FirstEight(FirstSeen(texts))| ensures |FirstEight(FirstSeen(texts))[i]| == 16 {
      assert FirstSeen(texts)[i] in texts;
    }
  }

  /** On a well-formed table the serial query reads only the table and reports the first system
      identifier. */
  lemma SerialOfTable(mem: seq<Octet>, table: seq<Structure>)
    requires AllWellFormed(table) && mem == PrintTable(table)
    ensures SerialInside(mem, Walk(mem, 0)) && SerialAt(mem, Walk(mem, 0)) == SerialOf(table)
  {
    TableVisited(mem, table);
    ReadPrinted(mem, Walk(mem, 0), table);
    QueriesStayInside(mem, Walk(mem, 0), table);
  }

  lemma TableVisited(mem: seq<Octet>, table: seq<Structure>)
    requires AllWellFormed(table) && mem == PrintTable(table)
    ensures |Walk(mem, 0)| == |table| && forall i :: 0 <= i < |table| ==> PrintedAt(mem, Walk(mem, 0)[i], table[i])
  {
    hide PrintedAt, Walk;
    assert mem[0..] == mem;
    WalkPrinted(mem, 0, table);
    StartsPrinted(mem, 0, table);
  }

  /** On a well-formed table the processor query reads only the table, and reports the first eight
      different identifiers in first-seen order, with commas and spaces between them, if and only if the
      buffer has room for them and a closing zero. */
  lemma CpuReportOfTable(mem: seq<Octet>, table: seq<Structure>, size: nat)
    requires AllWellFormed(table) && mem == PrintTable(table) && 0 < size < U32
    ensures CpusInside(mem, Walk(mem, 0))
    ensures forall i :: 0 <= i < |FirstSeen(CpuIds(table))| ==> |FirstSeen(CpuIds(table))[i]| == 8
    ensures var kept := FirstEight(FirstSeen(CpuIds(table)));
            CpuReport(CpusAt(mem, Walk(mem, 0)), size) == (if kept == [] then NONE else Commas(CpuTexts(kept)))
            <==> (if kept == [] then |NONE| else 18 * |kept| - 2) < size
  {
    hide CpuText, FirstSeen, JoinedIn, Commas, Walk, PrintedAt, CpusInside, SerialInside;
    TableVisited(mem, table);
    ReadPrinted(mem, Walk(mem, 0), table);
    QueriesStayInside(mem, Walk(mem, 0), table);
    FirstSeenTexts(CpuIds(table));
    var kept := FirstEight(FirstSeen(CpuIds(table)));
    assert FirstEight(CpuTexts(FirstSeen(CpuIds(table)))) == CpuTexts(kept);
    JoinFits(CpuTexts(kept), size);
  }

  // ---- The two queries ----

  /** How a query ends: with its status, or at a read behind the table or a write behind the buffer. */
  datatype Outcome = Success | Error | Overread | Overwrite

  /** A bounded copy into a zeroed buffer. */
  method CopyText(buffer: array<char>, text: string)
    requires buffer.Length > 0 && buffer[..] == Padded("", buffer.Length)
    modifies buffer
    ensures buffer[..] == Padded(Clip(text, buffer.Length), buffer.Length)
  {
    var n := if |text| < buffer.Length then |text| else buffer.Length - 1;
    assert forall k :: 0 <= k < buffer.Length ==> buffer[k] == buffer[..][k] == '\0';
    for i := 0 to n
      invariant forall k :: 0 <= k < buffer.Length ==> buffer[k] == if k < i then text[k] else '\0'
    {
      buffer[i] := text[i];
    }
  }

  method ZeroMemory(buffer: array<char>)
    modifies buffer
    ensures buffer[..] == Padded("", buffer.Length)
  {
    for i := 0 to buffer.Length
      invariant forall k :: 0 <= k < i ==> buffer[k] == '\0'
    {
      buffer[i] := '\0';
    }
  }

  /** Writes the identifier of the first system structure the walk meets, or NONE. */
  method GetMainboardSerial(mem: seq<Octet>, buffer: array<char>) returns (r: Outcome)
    modifies buffer
    ensures r == if buffer.Length == 0 then Error else if SerialInside(mem, Walk(mem, 0)) then Success else Overread
    ensures r == Success ==> buffer[..] == Padded(Clip(SerialAt(mem, Walk(mem, 0)), buffer.Length), buffer.Length)
    ensures r == Overread ==> buffer[..] == Padded("", buffer.Length)
  {
    hide UuidText, SkipText, Clip, Padded, Next, Walk;
    if buffer.Length == 0 {
      return Error;
    }
    ZeroMemory(buffer);
    var p := 0;
    while p < |mem|
      invariant SerialAt(mem, Walk(mem, 0)) == SerialAt(mem, Walk(mem, p))
      invariant SerialInside(mem, Walk(mem, 0)) == SerialInside(mem, Walk(mem, p))
      invariant buffer[..] == Padded("", buffer.Length)
      decreases |mem| - p
    {
      WalkStep(mem, p);
      if mem[p] == SYSTEM {
        if p + 24 > |mem| {
          return Overread;
        }
        CopyText(buffer, UuidText(mem[p + 8..p + 24]));
        return Success;
      }
      var inside, next := NextStructure(mem, p);
      if !inside {
        return Overread;
      }
      p := next;
    }
    WalkDone(mem, p);
    CopyText(buffer, NONE);
    return Success;
  }

  lemma WalkStep(mem: seq<Octet>, p: nat)
    requires p < |mem|
    ensures var ps := Walk(mem, p);
            ps != [] && ps[0] == p && ps[1..] == Walk(mem, Next(mem, p))
  {}

  lemma WalkDone(mem: seq<Octet>, p: nat)
    requires p >= |mem|
    ensures Walk(mem, p) == []
  {}

  /** Past the formatted area and the strings, unless the length byte or the scan's second zero lies behind
      the table. */
  method NextStructure(mem: seq<Octet>, start: nat) returns (inside: bool, p: nat)
    requires start < |mem|
    ensures inside <==> StepInside(mem, start)
    ensures inside ==> p == Next(mem, start)
  {
    if start + 1 == |mem| {
      return false, start;
    }
    p := start + mem[start + 1];
    while p < |mem|
      invariant SkipText(mem, p) == SkipText(mem, start + mem[start + 1])
      decreases |mem| - p
    {
      if mem[p] == 0 {
        if p + 1 == |mem| {
          return false, p;
        }
        if mem[p + 1] == 0 {
          break;
        }
      }
      p := p + 1;
    }
    inside, p := true, p + 2;
  }

  method Contains(found: seq<string>, cpuId: string) returns (isDuplicate: bool)
    ensures isDuplicate <==> cpuId in found
  {
    isDuplicate := false;
    for i := 0 to |found|
      invariant cpuId !in found[..i]
    {
      if found[i] == cpuId {
        return true;
      }
    }
  }

  /** Collects the different processor texts, at most eight. */
  method CollectCpus(mem: seq<Octet>) returns (inside: bool, found: seq<string>)
    ensures inside <==> CpusInside(mem, Walk(mem, 0))
    ensures inside ==> found == FirstEight(FirstSeen(CpusAt(mem, Walk(mem, 0))))
  {
    hide CpuText, SkipText, FirstSeen, StoreAll, CpusAt, Walk, Next;
    var p := 0;
    found := [];
    while p < |mem|
      invariant StoreAll(found, CpusAt(mem, Walk(mem, p))) == StoreAll([], CpusAt(mem, Walk(mem, 0)))
      invariant CpusInside(mem, Walk(mem, p)) == CpusInside(mem, Walk(mem, 0))
      decreases |mem| - p
    {
      WalkStep(mem, p);
      VisitNext(mem, p, found);
      if mem[p] == PROCESSOR {
        if p + 16 > |mem| {
          return false, found;
        }
        var cpuId := CpuText(mem[p + 8..p + 16]);
        var isDuplicate := Contains(found, cpuId);
        if !isDuplicate && |found| < MAX_CPUS {
          found := found + [cpuId];
        }
      }
      var ok, next := NextStructure(mem, p);
      if !ok {
        return false, found;
      }
      p := next;
    }
    WalkDone(mem, p);
    NothingLeft(mem, p, found);
    StoreKeepsFirst(CpusAt(mem, Walk(mem, 0)));
    inside := true;
  }

  /** What is still to be met after the structure at p. */
  lemma VisitNext(mem: seq<Octet>, p: nat, found: seq<string>)
    requires p < |mem|
    ensures StoreAll(found, CpusAt(mem, Walk(mem, p)))
            == StoreAll(if mem[p] == PROCESSOR then Store(found, CpuText(Field(mem, p + 8, 8))) else found,
                        CpusAt(mem, Walk(mem, Next(mem, p))))
  {
    hide CpuText, SkipText, Store, Next;
    WalkStep(mem, p);
    if mem[p] == PROCESSOR {
      var id, rest := CpuText(Field(mem, p + 8, 8)), CpusAt(mem, Walk(mem, Next(mem, p)));
      assert ([id] + rest)[1..] == rest;
    }
  }

  lemma NothingLeft(mem: seq<Octet>, p: nat, found: seq<string>)
    requires p >= |mem|
    ensures StoreAll(found, CpusAt(mem, Walk(mem, p))) == found
  {}

  /** Writes the processor report. */
  method GetCPUInfo(mem: seq<Octet>, buffer: array<char>) returns (r: Outcome)
    requires buffer.Length < U32
    modifies buffer
    ensures var texts := CpusAt(mem, Walk(mem, 0));
            r == if buffer.Length == 0 then Error
                 else if !CpusInside(mem, Walk(mem, 0)) then Overread
                 else if !Inside(texts, buffer.Length) then Overwrite
                 else if texts == [] || buffer.Length > 16 then Success else Error
    ensures buffer.Length > 0 && (r == Success || r == Error) ==>
              buffer[..] == Padded(CpuReport(CpusAt(mem, Walk(mem, 0)), buffer.Length), buffer.Length)
    ensures r == Overread ==> buffer[..] == Padded("", buffer.Length)
  {
    hide CpuText, Walk, FirstSeen, Padded, Clip, CpusInside;
    if buffer.Length == 0 {
      return Error;
    }
    ZeroMemory(buffer);
    var inside, found := CollectCpus(mem);
    if !inside {
      return Overread;
    }
    Kept16(CpusAt(mem, Walk(mem, 0)));
    SomeSeen(CpusAt(mem, Walk(mem, 0)));
    r := JoinIds(found, buffer);
    if |found| == 0 {
      CopyText(buffer, NONE);
      r := Success;
    }
  }

  lemma SomeSeen(s: seq<string>)
    ensures FirstEight(FirstSeen(s)) == [] <==> s == []
  {
    if s != [] {
      assert s[0] in FirstSeen(s);
    }
  }

  method JoinIds(ids: seq<string>, buffer: array<char>) returns (r: Outcome)
    requires 0 < buffer.Length < U32 && buffer[..] == Padded("", buffer.Length)
    requires |ids| <= MAX_CPUS && forall i :: 0 <= i < |ids| ==> |ids[i]| == 16
    modifies buffer
    ensures r == if buffer.Length < 3 && |ids| > buffer.Length then Overwrite
                 else if ids != [] && buffer.Length > 16 then Success else Error
    ensures r != Overwrite ==> |JoinedIn(ids, buffer.Length)| <= buffer.Length
                               && buffer[..] == Padded(JoinedIn(ids, buffer.Length), buffer.Length)
  {
    var size, currentPos := buffer.Length, 0;
    ghost var text := "";
    r := Error;
    for i := 0 to |ids|
      invariant text == JoinedIn(ids[..i], size) && currentPos == |text| <= size && buffer[..] == Padded(text, size)
      invariant r == if i > 0 && size > 16 then Success else Error
    {
      assert Front(ids[..i + 1]) == ids[..i];
      JoinStaysInside(ids[..i + 1], size);
      if i > 0 && currentPos < RoomBound(size) {
        if currentPos + 2 > size {
          return Overwrite;
        }
        Write(buffer, currentPos, text, ", ");
        currentPos := currentPos + 2;
        text := text + ", ";
      }
      if currentPos + 16 < size {
        Write(buffer, currentPos, text, ids[i]);
        currentPos := currentPos + 16;
        text := text + ids[i];
        r := Success;
      }
    }
    assert ids[..|ids|] == ids;
    JoinStaysInside(ids, size);
  }

  /** Writes s behind the text the buffer holds. */
  method Write(buffer: array<char>, pos: nat, ghost text: string, s: string)
    requires pos == |text| && pos + |s| <= buffer.Length && buffer[..] == Padded(text, buffer.Length)
    modifies buffer
    ensures buffer[..] == Padded(text + s, buffer.Length)
  {
    ghost var before := buffer[..];
    for i := 0 to |s|
      invariant forall k :: 0 <= k < buffer.Length ==> buffer[k] == if pos <= k < pos + i then s[k - pos] else before[k]
    {
      buffer[pos + i] := s[i];
    }
  }
}
