/** What the texts of the hardware queries say (GetHardware.c): which fields of which structures they name, as
    which numbers, and in which order. */
module SmbiosTexts {
  import opened Common
  import opened Smbios

  // ---- Texts as numbers ----

  function DigitValue(c: char): int {
    if '0' <= c <= '9' then c as int - '0' as int else if 'A' <= c <= 'F' then c as int - 'A' as int + 10 else -1
  }

  /** A text read as a hexadecimal number in capitals. */
  function HexValue(t: string): int {
    if t == "" then 0 else 16 * HexValue(Front(t)) + DigitValue(Last(t))
  }

  /** Bytes as a number, the most significant first. */
  function BigValue(s: seq<Octet>): nat {
    if s == [] then 0 else 256 * BigValue(Front(s)) + Last(s)
  }

  /** Bytes as a number, the least significant first. */
  function LittleValue(s: seq<Octet>): nat {
    if s == [] then 0 else s[0] + 256 * LittleValue(s[1..])
  }

  lemma DigitSpells(n: nat)
    requires n < 16
    ensures DigitValue(Digit(n)) == n
  {}

  lemma HexValueNext(t: string, a: char, b: char)
    ensures HexValue(t + [a, b]) == 256 * HexValue(t) + 16 * DigitValue(a) + DigitValue(b)
  {
    assert Front(t + [a, b]) == t + [a] && Front(t + [a]) == t;
  }

  lemma {:induction false} HexSpells(s: seq<Octet>)
    ensures HexValue(Hex(s)) == BigValue(s)
  {
    hide Digit, DigitValue;
    if s != [] {
      var b := Last(s);
      HexSpells(Front(s));
      HexLast(s);
      HexValueNext(Hex(Front(s)), Digit(b / 16), Digit(b % 16));
      DigitSpells(b / 16);
      DigitSpells(b % 16);
    }
  }

  lemma {:induction false} BigOfReverse(r: seq<Octet>, s: seq<Octet>)
    requires |r| == |s| && forall i :: 0 <= i < |s| ==> r[i] == s[|s| - 1 - i]
    ensures BigValue(r) == LittleValue(s)
    decreases |s|
  {
    if s != [] {
      BigOfReverse(Front(r), s[1..]);
    }
  }

  /** The text of a processor identifier is the little-endian number it is. */
  lemma CpuTextSpells(id: seq<Octet>)
    requires |id| == 8
    ensures |CpuText(id)| == 16 && HexValue(CpuText(id)) == LittleValue(id)
  {
    hide Hex, HexValue, BigValue, LittleValue;
    var r: seq<Octet> := [id[7], id[6], id[5], id[4], id[3], id[2], id[1], id[0]];
    HexSpells(r);
    BigOfReverse(r, id);
  }

  lemma {:induction false} HexSplit(a: seq<Octet>, b: seq<Octet>)
    ensures Hex(a + b) == Hex(a) + Hex(b)
    decreases |b|
  {
    hide Digit;
    if b == [] {
      assert a + b == a;
    } else {
      hide Hex;
      HexSplit(a, Front(b));
      HexLast(b);
      HexLast(a + b);
      assert (a + b)[..|a + b| - 1] == a + Front(b) && b[..|b| - 1] == Front(b);
    }
  }

  lemma GroupsOf(u: seq<Octet>)
    requires |u| == 16
    ensures Hex(u) == Hex(u[..4]) + Hex(u[4..6]) + Hex(u[6..8]) + Hex(u[8..10]) + Hex(u[10..])
  {
    hide Hex;
    HexSplit(u[..4], u[4..6]);
    HexSplit(u[..4] + u[4..6], u[6..8]);
    HexSplit(u[..4] + u[4..6] + u[6..8], u[8..10]);
    HexSplit(u[..4] + u[4..6] + u[6..8] + u[8..10], u[10..]);
    assert u == u[..4] + u[4..6] + u[6..8] + u[8..10] + u[10..];
  }

  /** The text of a UUID is the number its bytes spell in their order, in groups of 8, 4, 4, 4 and 12 digits
      with a dash between them. */
  lemma UuidTextSpells(u: seq<Octet>)
    requires |u| == 16
    ensures var t := UuidText(u);
            && |t| == 36 && t[8] == t[13] == t[18] == t[23] == '-'
            && HexValue(t[..8] + t[9..13] + t[14..18] + t[19..23] + t[24..]) == BigValue(u)
  {
    hide Hex, HexValue, BigValue;
    GroupsOf(u);
    HexSpells(u);
    var t := UuidText(u);
    assert t[..8] == Hex(u[..4]) && t[9..13] == Hex(u[4..6]) && t[14..18] == Hex(u[6..8]);
    assert t[19..23] == Hex(u[8..10]) && t[24..] == Hex(u[10..]);
  }

  // ---- Which fields are named ----

  /** The body of a structure of type 1: four string numbers, the UUID, and more. */
  ghost predicate SystemWith(s: Structure, uuid: seq<Octet>) {
    s.kind == 1 && |uuid| == 16 && 20 <= |s.body| <= 251 && s.body[4..20] == uuid
  }

  /** The body of a structure of type 4: socket, type, family and manufacturer, the identifier, and more. */
  ghost predicate ProcessorWith(s: Structure, id: seq<Octet>) {
    s.kind == 4 && |id| == 8 && 12 <= |s.body| <= 251 && s.body[4..12] == id
  }

  /** A structure as it stands in memory: type, length of the formatted area, handle, fields, and the strings
      with their zeros. */
  lemma KnownStructure()
    ensures var s := Structure(17, (0x22, 0x33), [5, 6, 7], [[0x41, 0x42], [0x43]]);
            WellFormed(s) && Print(s) == [17, 7, 0x22, 0x33, 5, 6, 7, 0x41, 0x42, 0, 0x43, 0, 0]
    ensures var s := Structure(127, (0, 0), [], []);
            WellFormed(s) && Print(s) == [127, 4, 0, 0, 0, 0]
  {
    var two: seq<seq<Octet>> := [[0x41, 0x42], [0x43]];
    assert two[1..] == [[0x43]] && StringArea([[0x43]]) == [0x43, 0, 0];
    assert StringArea(two) == [0x41, 0x42, 0, 0x43, 0, 0];
  }

  /** The serial text is that of the first structure of type 1, whatever comes before and after it. */
  lemma {:induction false} FirstSystemNamed(before: seq<Structure>, s: Structure, after: seq<Structure>, uuid: seq<Octet>)
    requires AllWellFormed(before + [s] + after) && SystemWith(s, uuid)
    requires forall i :: 0 <= i < |before| ==> before[i].kind != 1
    ensures SerialOf(before + [s] + after) == UuidText(uuid)
    decreases |before|
  {
    var table := before + [s] + after;
    if before == [] {
      assert table[0] == s;
    } else {
      assert table[0] == before[0] && table[1..] == before[1..] + [s] + after;
      FirstSystemNamed(before[1..], s, after, uuid);
    }
  }

  lemma {:induction false} NoSystemNamed(table: seq<Structure>)
    requires AllWellFormed(table) && forall i :: 0 <= i < |table| ==> table[i].kind != 1
    ensures SerialOf(table) == "NONE"
    decreases |table|
  {
    if table != [] {
      NoSystemNamed(table[1..]);
    }
  }

  /** The processor identifiers are those of the structures of type 4, in the order of the table. */
  lemma ProcessorNamed(table: seq<Structure>, s: Structure, id: seq<Octet>)
    requires AllWellFormed([s] + table) && AllWellFormed(table)
    ensures ProcessorWith(s, id) ==> CpuIds([s] + table) == [id] + CpuIds(table)
    ensures s.kind != 4 ==> CpuIds([s] + table) == CpuIds(table)
    ensures CpuIds([]) == []
  {
    assert ([s] + table)[1..] == table;
  }

  // ---- Order and separators ----

  /** x is met before y is. */
  ghost predicate MetBefore<T>(s: seq<T>, x: T, y: T) {
    exists k :: 0 <= k < |s| && s[k] == x && y !in s[..k + 1]
  }

  lemma StillBefore<T>(s: seq<T>, z: T, x: T, y: T)
    requires MetBefore(s, x, y)
    ensures MetBefore(s + [z], x, y)
  {
    var k :| 0 <= k < |s| && s[k] == x && y !in s[..k + 1];
    assert (s + [z])[..k + 1] == s[..k + 1] && (s + [z])[k] == x;
  }

  /** Removing duplicates keeps every identifier once, in the order in which they are met. */
  lemma {:induction false} FirstSeenOrdered<T(!new)>(s: seq<T>)
    ensures forall i, j :: 0 <= i < j < |FirstSeen(s)| ==> MetBefore(s, FirstSeen(s)[i], FirstSeen(s)[j])
  {
    if s != [] {
      var f, z, r := Front(s), Last(s), FirstSeen(s);
      assert s == f + [z];
      FirstSeenOrdered(f);
      forall i, j | 0 <= i < j < |r| ensures MetBefore(s, r[i], r[j]) {
        if j < |FirstSeen(f)| {
          StillBefore(f, z, r[i], r[j]);
        } else {
          assert r[i] in f && z !in f;
          var k :| 0 <= k < |f| && f[k] == r[i];
          assert s[k] == r[i] && z !in s[..k + 1];
        }
      }
    }
  }

  lemma EightKept<T>(s: seq<T>)
    ensures FirstEight(s) == s[..if |s| < 8 then |s| else 8]
  {}

  /** In the joined text identifier k stands at 18 * k, with a comma and a space behind it unless it is the
      last. */
  lemma {:induction false} CommasAt(ids: seq<string>, k: nat)
    requires k < |ids| && forall i :: 0 <= i < |ids| ==> |ids[i]| == 16
    ensures var t := Commas(ids);
            && |t| == 18 * |ids| - 2 && t[18 * k..18 * k + 16] == ids[k]
            && (k + 1 < |ids| ==> t[18 * k + 16..18 * k + 18] == ", ")
  {
    CommasLength(ids);
    if |ids| > 1 {
      var t, f := Commas(ids), Commas(Front(ids));
      CommasLength(Front(ids));
      assert t == f + ", " + Last(ids);
      if k < |ids| - 1 {
        CommasAt(Front(ids), k);
        assert t[18 * k..18 * k + 16] == f[18 * k..18 * k + 16];
        if k < |ids| - 2 {
          assert t[18 * k + 16..18 * k + 18] == f[18 * k + 16..18 * k + 18];
        }
      }
    }
  }

  /** A buffer with room for one identifier only still gets a separator for each further one. */
  lemma JoinedTooSmall(a: string, b: string, c: string)
    requires |a| == |b| == |c| == 16
    ensures JoinedIn([a, b], 20) == a + ", " && JoinedIn([a, b, c], 30) == a + ", , "
  {
    assert Front([a]) == [] && Front([a, b]) == [a] && Front([a, b, c]) == [a, b];
    assert "" + a == a && a + ", " + ", " == a + ", , ";
    JoinedOne(a, 20);
    JoinedOne(a, 30);
  }

  lemma JoinedOne(a: string, size: nat)
    requires |a| == 16 < size < U32
    ensures JoinedIn([a], size) == a
  {
    assert Front([a]) == [] && JoinedIn([], size) == "";
    assert "" + a == a;
  }
}
