/** stb_decompress (imgui_draw.cpp): the LZ decoder of the embedded fonts. Its input is a raw
    pointer, so it is modelled as the bytes from that pointer on, without an end; its output is
    an array filled in place behind a moving write position. */
module LzDecoder {
  import opened Common
  import opened Adler32

  type Memory = nat -> Octet

  /** Copy the next bytes of the input, or len bytes from dist positions back in the output. */
  datatype Token = Literal(bytes: seq<Octet>) | Match(dist: nat, len: nat)

  // ---- What a list of tokens means ----

  /** One byte at a time, so a match may reach into the bytes it is itself producing. */
  function CopyMatch(out: seq<Octet>, dist: nat, len: nat): (r: seq<Octet>)
    requires 1 <= dist <= |out|
    ensures |r| == |out| + len && out <= r
    decreases len
  {
    if len == 0 then out else CopyMatch(out + [out[|out| - dist]], dist, len - 1)
  }

  /** A match produces a periodic extension: every new byte repeats the one dist before it. */
  lemma {:induction false} MatchIsPeriodic(out: seq<Octet>, dist: nat, len: nat, k: nat)
    requires 1 <= dist <= |out| <= k < |out| + len
    ensures CopyMatch(out, dist, len)[k] == CopyMatch(out, dist, len)[k - dist]
    decreases len
  {
    var next := out + [out[|out| - dist]];
    if k == |out| {
      assert next <= CopyMatch(next, dist, len - 1);
    } else {
      MatchIsPeriodic(next, dist, len - 1, k);
    }
  }

  function Apply(out: seq<Octet>, t: Token): (r: Option<seq<Octet>>)
    ensures r.Some? ==> out <= r.value
  {
    match t
    case Literal(bytes) => Some(out + bytes)
    case Match(dist, len) => if 1 <= dist <= |out| then Some(CopyMatch(out, dist, len)) else None
  }

  /** A literal run puts its bytes behind the output, in their order; a match puts the byte dist back there
      first, and is refused exactly when that byte does not exist. */
  lemma TokenWrites(out: seq<Octet>, bytes: seq<Octet>, dist: nat, len: nat, k: nat)
    ensures var r := Apply(out, Literal(bytes));
            && r.Some? && |r.value| == |out| + |bytes| && r.value[..|out|] == out
            && (k < |bytes| ==> r.value[|out| + k] == bytes[k])
    ensures Apply(out, Match(dist, len)).Some? <==> 1 <= dist <= |out|
    ensures 1 <= dist <= |out| && len > 0 ==>
              var r := Apply(out, Match(dist, len)).value;
              |r| == |out| + len && r[..|out|] == out && r[|out|] == out[|out| - dist]
  {
    if 1 <= dist <= |out| && len > 0 {
      var next := out + [out[|out| - dist]];
      assert next <= CopyMatch(next, dist, len - 1);
    }
  }

  /** The output of a token list after out; None if a match reaches before the first byte. */
  function Meaning(out: seq<Octet>, ts: seq<Token>): Option<seq<Octet>>
    decreases ts
  {
    if ts == [] then Some(out)
    else match Apply(out, ts[0])
      case None => None
      case Some(next) => Meaning(next, ts[1..])
  }

  // ---- The nine token forms ----

  /** A token in one of its forms, named by the first opcode of the form. */
  datatype Coded =
    | Match80(dist: nat, len: nat)
    | Match40(dist: nat, len: nat)
    | Literal20(bytes: seq<Octet>)
    | Match18(dist: nat, len: nat)
    | Match10(dist: nat, len: nat)
    | Literal08(bytes: seq<Octet>)
    | Literal07(bytes: seq<Octet>)
    | Match06(dist: nat, len: nat)
    | Match04(dist: nat, len: nat)
  {
    predicate IsLiteral() { Literal20? || Literal08? || Literal07? }

    function Token(): Token {
      if IsLiteral() then Literal(bytes) else Match(dist, len)
    }

    /** The lengths and distances the form has room for. */
    predicate Fits() {
      match this
      case Match80(dist, len) => 1 <= dist <= 0x100 && 1 <= len <= 0x80
      case Match40(dist, len) => 1 <= dist <= 0x4000 && 1 <= len <= 0x100
      case Literal20(bytes) => 1 <= |bytes| <= 0x20
      case Match18(dist, len) => 1 <= dist <= 0x8_0000 && 1 <= len <= 0x100
      case Match10(dist, len) => 1 <= dist <= 0x8_0000 && 1 <= len <= 0x1_0000
      case Literal08(bytes) => 1 <= |bytes| <= 0x800
      case Literal07(bytes) => 1 <= |bytes| <= 0x1_0000
      case Match06(dist, len) => 1 <= dist <= 0x100_0000 && 1 <= len <= 0x100
      case Match04(dist, len) => 1 <= dist <= 0x100_0000 && 1 <= len <= 0x1_0000
    }
  }

  function Big2(v: nat): (s: seq<Octet>)
    requires v < 0x1_0000
    ensures |s| == 2
  {
    [v / 256, v % 256]
  }

  function Big3(v: nat): (s: seq<Octet>)
    requires v < 0x100_0000
    ensures |s| == 3
  {
    [v / 0x1_0000, v / 256 % 256, v % 256]
  }

  /** The bytes of a token in front of any literal bytes. */
  function Opcode(c: Coded): (s: seq<Octet>)
    requires c.Fits()
    ensures s != []
  {
    match c
    case Match80(dist, len) => [0x80 + len - 1, dist - 1]
    case Match40(dist, len) => Big2(0x4000 + dist - 1) + [len - 1]
    case Literal20(bytes) => [0x20 + |bytes| - 1]
    case Match18(dist, len) => Big3(0x18_0000 + dist - 1) + [len - 1]
    case Match10(dist, len) => Big3(0x10_0000 + dist - 1) + Big2(len - 1)
    case Literal08(bytes) => Big2(0x0800 + |bytes| - 1)
    case Literal07(bytes) => [0x07] + Big2(|bytes| - 1)
    case Match06(dist, len) => [0x06] + Big3(dist - 1) + [len - 1]
    case Match04(dist, len) => [0x04] + Big3(dist - 1) + Big2(len - 1)
  }

  function Encode(c: Coded): (s: seq<Octet>)
    requires c.Fits()
    ensures s != []
  {
    Opcode(c) + if c.IsLiteral() then c.bytes else []
  }

  predicate AllFit(cs: seq<Coded>) { forall c :: c in cs ==> c.Fits() }

  function EncodeAll(cs: seq<Coded>): seq<Octet>
    requires AllFit(cs)
  {
    if cs == [] then [] else Encode(cs[0]) + EncodeAll(cs[1..])
  }

  function Tokens(cs: seq<Coded>): seq<Token> {
    if cs == [] then [] else [cs[0].Token()] + Tokens(cs[1..])
  }

  // ---- Reading tokens ----

  predicate Holds(m: Memory, p: nat, s: seq<Octet>) {
    forall k: nat :: k < |s| ==> m(p + k) == s[k]
  }

  function In2(m: Memory, p: nat): nat { m(p) * 256 + m(p + 1) }

  function In3(m: Memory, p: nat): nat { m(p) * 0x1_0000 + In2(m, p + 1) }

  function In4(m: Memory, p: nat): nat { m(p) * 0x100_0000 + In3(m, p + 1) }

  function BytesAt(m: Memory, p: nat, n: nat): (s: seq<Octet>)
    ensures |s| == n && Holds(m, p, s)
  {
    seq(n, k requires 0 <= k < n => m(p + k))
  }

  /** The token at p and where it ends; None when the byte at p opens no token. */
  function TokenAt(m: Memory, p: nat): (r: Option<(Token, nat)>)
    ensures r.Some? ==> p < r.value.1
    ensures r.Some? && r.value.0.Literal? ==> r.value.0.bytes != []
    ensures r.Some? && r.value.0.Match? ==> r.value.0.dist >= 1 && r.value.0.len >= 1
  {
    var op := m(p);
    if op >= 0x80 then Some((Match(m(p + 1) + 1, op - 0x80 + 1), p + 2))
    else if op >= 0x40 then Some((Match(In2(m, p) - 0x4000 + 1, m(p + 2) + 1), p + 3))
    else if op >= 0x20 then
      var n := op - 0x20 + 1; Some((Literal(BytesAt(m, p + 1, n)), p + 1 + n))
    else if op >= 0x18 then Some((Match(In3(m, p) - 0x18_0000 + 1, m(p + 3) + 1), p + 4))
    else if op >= 0x10 then Some((Match(In3(m, p) - 0x10_0000 + 1, In2(m, p + 3) + 1), p + 5))
    else if op >= 0x08 then
      var n := In2(m, p) - 0x0800 + 1; Some((Literal(BytesAt(m, p + 2, n)), p + 2 + n))
    else if op == 0x07 then
      var n := In2(m, p + 1) + 1; Some((Literal(BytesAt(m, p + 3, n)), p + 3 + n))
    else if op == 0x06 then Some((Match(In3(m, p + 1) + 1, m(p + 4) + 1), p + 5))
    else if op == 0x04 then Some((Match(In3(m, p + 1) + 1, In2(m, p + 4) + 1), p + 6))
    else None
  }

  /** What each opcode means, on bytes that tell every field apart. */
  lemma KnownMatches(m: Memory)
    ensures Holds(m, 0, [0x85, 0x03]) ==> TokenAt(m, 0) == Some((Match(4, 6), 2))
    ensures Holds(m, 0, [0x41, 0x02, 0x03]) ==> TokenAt(m, 0) == Some((Match(0x103, 4), 3))
    ensures Holds(m, 0, [0x19, 0x02, 0x03, 0x04]) ==> TokenAt(m, 0) == Some((Match(0x1_0204, 5), 4))
  {
    HoldsEach(m, [0x85, 0x03]);
    HoldsEach(m, [0x41, 0x02, 0x03]);
    HoldsEach(m, [0x19, 0x02, 0x03, 0x04]);
  }

  lemma KnownLongMatches(m: Memory)
    ensures Holds(m, 0, [0x11, 0x02, 0x03, 0x04, 0x05]) ==> TokenAt(m, 0) == Some((Match(0x1_0204, 0x406), 5))
    ensures Holds(m, 0, [0x06, 0x01, 0x02, 0x03, 0x04]) ==> TokenAt(m, 0) == Some((Match(0x1_0204, 5), 5))
    ensures Holds(m, 0, [0x04, 0x01, 0x02, 0x03, 0x04, 0x05]) ==> TokenAt(m, 0) == Some((Match(0x1_0204, 0x406), 6))
  {
    HoldsEach(m, [0x11, 0x02, 0x03, 0x04, 0x05]);
    HoldsEach(m, [0x06, 0x01, 0x02, 0x03, 0x04]);
    HoldsEach(m, [0x04, 0x01, 0x02, 0x03, 0x04, 0x05]);
  }

  lemma KnownLiterals(m: Memory)
    ensures Holds(m, 0, [0x22]) ==> TokenAt(m, 0) == Some((Literal([m(1), m(2), m(3)]), 4))
    ensures Holds(m, 0, [0x08, 0x01]) ==> TokenAt(m, 0) == Some((Literal([m(2), m(3)]), 4))
    ensures Holds(m, 0, [0x07, 0x00, 0x01]) ==> TokenAt(m, 0) == Some((Literal([m(3), m(4)]), 5))
  {
    HoldsEach(m, [0x22]);
    HoldsEach(m, [0x08, 0x01]);
    HoldsEach(m, [0x07, 0x00, 0x01]);
    assert BytesAt(m, 1, 3) == [m(1), m(2), m(3)];
    assert BytesAt(m, 2, 2) == [m(2), m(3)] && BytesAt(m, 3, 2) == [m(3), m(4)];
  }

  lemma KnownLongLiterals(m: Memory)
    ensures Holds(m, 0, [0x0A, 0x01]) ==> TokenAt(m, 0).Some? && TokenAt(m, 0).value.1 == 2 + 0x202
    ensures Holds(m, 0, [0x07, 0x02, 0x01]) ==> TokenAt(m, 0).Some? && TokenAt(m, 0).value.1 == 3 + 0x202
  {
    HoldsEach(m, [0x0A, 0x01]);
    HoldsEach(m, [0x07, 0x02, 0x01]);
  }

  lemma HoldsEach(m: Memory, s: seq<Octet>)
    ensures Holds(m, 0, s) ==> forall k: nat :: k < |s| ==> m(k) == s[k]
  {
    if Holds(m, 0, s) {
      forall k: nat | k < |s| ensures m(k) == s[k] {
        assert m(0 + k) == s[k];
      }
    }
  }

  lemma HoldsParts(m: Memory, p: nat, s: seq<Octet>, t: seq<Octet>)
    ensures Holds(m, p, s + t) <==> Holds(m, p, s) && Holds(m, p + |s|, t)
  {
    if Holds(m, p, s + t) {
      assert forall k: nat :: k < |s| ==> (s + t)[k] == s[k];
      forall k: nat | k < |t| ensures m(p + |s| + k) == t[k] {
        assert m(p + (|s| + k)) == (s + t)[|s| + k];
      }
    }
    if Holds(m, p, s) && Holds(m, p + |s|, t) {
      forall k: nat | k < |s + t| ensures m(p + k) == (s + t)[k] {
        if k >= |s| {
          assert m(p + |s| + (k - |s|)) == t[k - |s|];
        }
      }
    }
  }

  lemma HoldsUnique(m: Memory, p: nat, s: seq<Octet>)
    requires Holds(m, p, s)
    ensures s == BytesAt(m, p, |s|)
  {}

  /** The operands of an opcode, byte by byte. */
  lemma OpcodeBytes(m: Memory, p: nat, c: Coded)
    requires c.Fits() && Holds(m, p, Opcode(c))
    ensures forall k: nat :: k < |Opcode(c)| ==> m(p + k) == Opcode(c)[k]
  {}

  lemma Digits3(v: nat)
    requires v < 0x100_0000
    ensures v == v / 0x1_0000 * 0x1_0000 + v / 256 % 256 * 256 + v % 256
  {
    assert v / 0x1_0000 == v / 256 / 256;
  }

  /** Reading inverts writing, for every form and every token that fits it. */
  lemma ReadEncoded(m: Memory, p: nat, c: Coded)
    requires c.Fits() && Holds(m, p, Encode(c))
    ensures TokenAt(m, p) == Some((c.Token(), p + |Encode(c)|))
  {
    var op := Opcode(c);
    HoldsParts(m, p, op, if c.IsLiteral() then c.bytes else []);
    if c.IsLiteral() {
      HoldsUnique(m, p + |op|, c.bytes);
      ReadLiteral(m, p, c);
    } else {
      ReadMatch(m, p, c);
    }
  }

  lemma ReadLiteral(m: Memory, p: nat, c: Coded)
    requires c.Fits() && c.IsLiteral() && Holds(m, p, Opcode(c)) && c.bytes == BytesAt(m, p + |Opcode(c)|, |c.bytes|)
    ensures TokenAt(m, p) == Some((c.Token(), p + |Opcode(c)| + |c.bytes|))
  {
    OpcodeBytes(m, p, c);
    var op := Opcode(c);
    assert m(p) == op[0];
    if c.Literal08? {
      assert m(p + 1) == op[1];
    } else if c.Literal07? {
      assert m(p + 1) == op[1] && m(p + 2) == op[2];
    }
  }

  lemma ReadMatch(m: Memory, p: nat, c: Coded)
    requires c.Fits() && !c.IsLiteral() && Holds(m, p, Opcode(c))
    ensures TokenAt(m, p) == Some((c.Token(), p + |Opcode(c)|))
  {
    if c.Match80? || c.Match40? {
      ReadNearMatch(m, p, c);
    } else {
      ReadFarMatch(m, p, c);
    }
  }

  lemma ReadNearMatch(m: Memory, p: nat, c: Coded)
    requires c.Fits() && (c.Match80? || c.Match40?) && Holds(m, p, Opcode(c))
    ensures TokenAt(m, p) == Some((c.Token(), p + |Opcode(c)|))
  {
    OpcodeBytes(m, p, c);
    var op := Opcode(c);
    assert m(p) == op[0] && m(p + 1) == op[1];
    if c.Match40? {
      assert m(p + 2) == op[2];
    }
  }

  lemma ReadFarMatch(m: Memory, p: nat, c: Coded)
    requires c.Fits() && (c.Match18? || c.Match10? || c.Match06? || c.Match04?) && Holds(m, p, Opcode(c))
    ensures TokenAt(m, p) == Some((c.Token(), p + |Opcode(c)|))
  {
    OpcodeBytes(m, p, c);
    var op := Opcode(c);
    assert m(p) == op[0] && m(p + 1) == op[1] && m(p + 2) == op[2] && m(p + 3) == op[3];
    if c.Match18? || c.Match10? {
      Digits3((if c.Match18? then 0x18_0000 else 0x10_0000) + c.dist - 1);
    } else {
      Digits3(c.dist - 1);
      assert m(p + 4) == op[4];
    }
    if c.Match10? {
      assert m(p + 4) == op[4];
    } else if c.Match04? {
      assert m(p + 5) == op[5];
    }
  }

  lemma ReadBig(m: Memory, p: nat)
    ensures In2(m, p) < 0x1_0000 && Big2(In2(m, p)) == [m(p), m(p + 1)]
    ensures In3(m, p) < 0x100_0000 && Big3(In3(m, p)) == [m(p), m(p + 1), m(p + 2)]
  {
    var a: int, b: int := m(p), m(p + 1);
    Digits3(In3(m, p));
    assert In3(m, p) / 256 == 256 * a + b;
  }

  /** Writing inverts reading: whatever the decoder reads as a token is the encoding of one. */
  lemma ReadIsEncoded(m: Memory, p: nat) returns (c: Coded)
    requires TokenAt(m, p).Some?
    ensures c.Fits() && Holds(m, p, Encode(c))
    ensures TokenAt(m, p) == Some((c.Token(), p + |Encode(c)|))
  {
    if TokenAt(m, p).value.0.Literal? {
      c := ReadBackLiteral(m, p);
      HoldsParts(m, p, Opcode(c), c.bytes);
    } else {
      if 0x10 <= m(p) < 0x20 || m(p) < 0x08 {
        c := ReadBackLongMatch(m, p);
      } else {
        c := ReadBackMatch(m, p);
      }
      assert Opcode(c) + [] == Opcode(c);
    }
  }

  lemma ReadBackLiteral(m: Memory, p: nat) returns (c: Coded)
    requires TokenAt(m, p).Some? && TokenAt(m, p).value.0.Literal?
    ensures c.Fits() && c.IsLiteral() && Holds(m, p, Opcode(c)) && Holds(m, p + |Opcode(c)|, c.bytes)
    ensures TokenAt(m, p) == Some((c.Token(), p + |Opcode(c)| + |c.bytes|))
  {
    hide In2, In3, Big2, Big3;
    var bytes := TokenAt(m, p).value.0.bytes;
    ReadBig(m, p);
    ReadBig(m, p + 1);
    Low2(m, p);
    c := if m(p) >= 0x20 then Literal20(bytes) else if m(p) >= 0x08 then Literal08(bytes) else Literal07(bytes);
    assert Opcode(c) == BytesAt(m, p, |Opcode(c)|);
  }

  lemma ReadBackMatch(m: Memory, p: nat) returns (c: Coded)
    requires m(p) >= 0x40
    ensures c.Fits() && !c.IsLiteral() && Holds(m, p, Opcode(c))
    ensures TokenAt(m, p) == Some((c.Token(), p + |Opcode(c)|))
  {
    hide In2, In3, Big2, Big3;
    var t := TokenAt(m, p).value.0;
    ReadBig(m, p);
    Low2(m, p);
    c := if m(p) >= 0x80 then Match80(t.dist, t.len) else Match40(t.dist, t.len);
    assert Opcode(c) == BytesAt(m, p, |Opcode(c)|);
  }

  /** The range of a two- or three-byte field follows from its first byte. */
  lemma Low2(m: Memory, p: nat)
    ensures 256 * m(p) <= In2(m, p) < 256 * (m(p) + 1)
    ensures 0x1_0000 * m(p) <= In3(m, p) < 0x1_0000 * (m(p) + 1)
  {}

  lemma ReadBackLongMatch(m: Memory, p: nat) returns (c: Coded)
    requires 0x10 <= m(p) < 0x20 || m(p) == 0x06 || m(p) == 0x04
    ensures c.Fits() && !c.IsLiteral() && Holds(m, p, Opcode(c))
    ensures TokenAt(m, p) == Some((c.Token(), p + |Opcode(c)|))
  {
    hide In2, In3, Big2, Big3;
    var t := TokenAt(m, p).value.0;
    Low2(m, p);
    ReadBig(m, p);
    ReadBig(m, p + 1);
    ReadBig(m, p + 3);
    ReadBig(m, p + 4);
    if m(p) >= 0x18 {
      c := Match18(t.dist, t.len);
    } else if m(p) >= 0x10 {
      c := Match10(t.dist, t.len);
    } else if m(p) == 0x06 {
      c := Match06(t.dist, t.len);
    } else {
      c := Match04(t.dist, t.len);
    }
    assert Opcode(c) == BytesAt(m, p, |Opcode(c)|);
  }

  // ---- The stream ----

  const SIGNATURE: nat := 0x57BC_0000

  /** The decoder as a function: what it produces from position p on, with out already written. */
  function Decode(m: Memory, p: nat, out: seq<Octet>, olen: nat): Option<seq<Octet>>
    decreases olen - |out|
  {
    match TokenAt(m, p)
    case None =>
      if m(p) == 0x05 && m(p + 1) == 0xFA && |out| == olen && Checksum(1, out) == In4(m, p + 2) then Some(out)
      else None
    case Some((t, end)) =>
      if |out| > olen then None
      else match Apply(out, t)
        case None => None
        case Some(next) =>
          if |next| > olen then None
          else
            assert |out| < |next|;
            Decode(m, end, next, olen)
  }

  predicate HeaderOk(m: Memory) { In4(m, 0) == SIGNATURE && In4(m, 4) == 0 }

  function OutputLength(m: Memory): nat { In4(m, 8) }

  /** A complete stream at p: the encoding of the tokens cs, then the end marker with the checksum of out. */
  ghost predicate StreamAt(m: Memory, p: nat, cs: seq<Coded>, out: seq<Octet>) {
    && AllFit(cs)
    && Holds(m, p, EncodeAll(cs))
    && var e := p + |EncodeAll(cs)|;
      m(e) == 0x05 && m(e + 1) == 0xFA && In4(m, e + 2) == Checksum(1, out)
  }

  lemma EndMarkerIsNoToken(m: Memory, p: nat)
    requires m(p) == 0x05
    ensures TokenAt(m, p).None?
  {}

  lemma ApplyGrows(out: seq<Octet>, t: Token)
    requires Apply(out, t).Some? && (if t.Literal? then t.bytes != [] else t.len >= 1)
    ensures |out| < |Apply(out, t).value|
  {}

  /** Every complete stream whose tokens mean out decodes to out. */
  lemma {:induction false} DecodeComplete(m: Memory, p: nat, cs: seq<Coded>, before: seq<Octet>, out: seq<Octet>)
    requires StreamAt(m, p, cs, out) && Meaning(before, Tokens(cs)) == Some(out)
    ensures |before| <= |out| && Decode(m, p, before, |out|) == Some(out)
    decreases cs
  {
    hide Encode, Opcode, Checksum, Holds, TokenAt, Apply, In4;
    if cs == [] {
      EndMarkerIsNoToken(m, p);
    } else {
      var c, rest := cs[0], cs[1..];
      HoldsParts(m, p, Encode(c), EncodeAll(rest));
      ReadEncoded(m, p, c);
      assert Tokens(cs)[1..] == Tokens(rest);
      ApplyGrows(before, c.Token());
      DecodeComplete(m, p + |Encode(c)|, rest, Apply(before, c.Token()).value, out);
    }
  }

  /** Whatever decodes is a complete stream whose tokens mean the output. */
  lemma {:induction false} DecodeSound(m: Memory, p: nat, before: seq<Octet>, olen: nat) returns (cs: seq<Coded>)
    requires Decode(m, p, before, olen).Some?
    ensures var out := Decode(m, p, before, olen).value;
            |out| == olen && StreamAt(m, p, cs, out) && Meaning(before, Tokens(cs)) == Some(out)
    decreases olen - |before|
  {
    hide Encode, Opcode, Checksum, Holds, TokenAt, Apply, In4;
    match TokenAt(m, p) {
      case None =>
        cs := [];
        HoldsNothing(m, p);
      case Some((t, end)) =>
        var c := ReadIsEncoded(m, p);
        ApplyGrows(before, t);
        var rest := DecodeSound(m, end, Apply(before, t).value, olen);
        cs := [c] + rest;
        assert cs[1..] == rest && Tokens(cs)[1..] == Tokens(rest);
        HoldsParts(m, p, Encode(c), EncodeAll(rest));
    }
  }

  lemma HoldsNothing(m: Memory, p: nat)
    ensures Holds(m, p, [])
  {}

  /** The shortest complete streams: any one literal run of at most 32 bytes, stored as it is. */
  lemma StoredStream(m: Memory, bytes: seq<Octet>)
    requires 1 <= |bytes| <= 32
    requires Holds(m, 0, [0x57, 0xBC, 0x00, 0x00, 0, 0, 0, 0, 0, 0, 0, |bytes|])
    requires m(16) == 0x1F + |bytes| && Holds(m, 17, bytes)
    requires m(17 + |bytes|) == 0x05 && m(18 + |bytes|) == 0xFA && In4(m, 19 + |bytes|) == Checksum(1, bytes)
    ensures HeaderOk(m) && OutputLength(m) == |bytes| && Decode(m, 16, [], |bytes|) == Some(bytes)
  {
    hide Checksum, TokenAt, Apply, In4, HeaderOk, OutputLength, Holds;
    StoredHeader(m, |bytes|);
    ReadStored(m, bytes);
    StoredWhole(bytes);
    EndMarkerIsNoToken(m, 17 + |bytes|);
  }

  lemma StoredHeader(m: Memory, n: nat)
    requires n <= 32 && Holds(m, 0, [0x57, 0xBC, 0x00, 0x00, 0, 0, 0, 0, 0, 0, 0, n])
    ensures HeaderOk(m) && OutputLength(m) == n
  {
    HoldsEach(m, [0x57, 0xBC, 0x00, 0x00, 0, 0, 0, 0, 0, 0, 0, n]);
  }

  lemma StoredWhole(bytes: seq<Octet>)
    ensures Apply([], Literal(bytes)) == Some(bytes)
  {
    assert [] + bytes == bytes;
  }

  lemma ReadStored(m: Memory, bytes: seq<Octet>)
    requires 1 <= |bytes| <= 32 && m(16) == 0x1F + |bytes| && Holds(m, 17, bytes)
    ensures TokenAt(m, 16) == Some((Literal(bytes), 17 + |bytes|))
  {
    HoldsUnique(m, 17, bytes);
  }

  // ---- The implementation ----

  /** What applying token t at dout does to the array: an error writes nothing and leaves the write
      position past the end; otherwise exactly the token's bytes are added at the write position. */
  ghost predicate Step(before: seq<Octet>, after: seq<Octet>, dout: nat, dout': nat, olen: nat, t: Token)
    requires dout <= olen <= |before|
  {
    match Apply(before[..dout], t)
    case None => dout' > olen && after == before
    case Some(next) =>
      if |next| > olen then dout' > olen && after == before
      else |after| == |before| && dout' == |next| && after[..dout'] == next && after[dout'..] == before[dout'..]
  }

  lemma StepRefused(out: seq<Octet>, dout: nat, dout': nat, olen: nat, dist: nat, len: nat)
    requires dout <= olen <= |out| && dout' > olen && (dout + len > olen || dist > dout)
    ensures Step(out, out, dout, dout', olen, Match(dist, len))
  {}

  lemma StepMatched(before: seq<Octet>, after: seq<Octet>, dout: nat, dout': nat, olen: nat, dist: nat, len: nat)
    requires 1 <= dist <= dout <= dout' == dout + len <= olen <= |before| == |after|
    requires after[..dout'] == CopyMatch(before[..dout], dist, len) && after[dout'..] == before[dout'..]
    ensures Step(before, after, dout, dout', olen, Match(dist, len))
  {}

  lemma CopyStep(written: seq<Octet>, dist: nat, left: nat)
    requires 1 <= dist <= |written| && left > 0
    ensures CopyMatch(written, dist, left) == CopyMatch(written + [written[|written| - dist]], dist, left - 1)
  {}

  /** stb__match: data may lie before the output. Every error leaves the write position past the end. */
  method StbMatch(output: array<Octet>, dout: nat, data: int, length: nat, olen: nat) returns (dout': nat)
    requires dout <= olen <= output.Length && data < dout
    modifies output
    ensures Step(old(output[..]), output[..], dout, dout', olen, Match(dout - data, length))
    ensures dout' <= olen <==> dout + length <= olen && data >= 0
  {
    hide CopyMatch, Step;
    if dout + length > olen {
      StepRefused(output[..], dout, dout + length, olen, dout - data, length);
      return dout + length;
    }
    if data < 0 {
      StepRefused(output[..], dout, olen + 1, olen, dout - data, length);
      return olen + 1;
    }
    dout' := dout;
    ghost var dist := dout - data;
    ghost var before, after := output[..dout], output[dout + length..];
    assert output[..][..dout] == before;
    var from: nat, left: nat := data, length;
    while left != 0
      invariant from + dist == dout' && dout' + left == dout + length
      invariant CopyMatch(output[..dout'], dist, left) == CopyMatch(before, dist, length)
      invariant output[dout + length..] == after
    {
      ghost var written := output[..dout'];
      CopyStep(written, dist, left);
      output[dout'] := output[from];
      assert output[..dout' + 1] == written + [written[|written| - dist]];
      left, dout', from := left - 1, dout' + 1, from + 1;
    }
    assert output[..][..dout'] == output[..dout'] && output[..][dout'..] == output[dout'..];
    StepMatched(old(output[..]), output[..], dout, dout', olen, dist, length);
  }

  /** stb__lit, its input check dropped: literal bytes always follow the start of the input. */
  method StbLit(output: array<Octet>, dout: nat, m: Memory, data: nat, length: nat, olen: nat) returns (dout': nat)
    requires dout <= olen <= output.Length
    modifies output
    ensures Step(old(output[..]), output[..], dout, dout', olen, Literal(BytesAt(m, data, length)))
    ensures dout' <= olen <==> dout + length <= olen
    ensures dout' <= olen ==> forall k: nat :: dout <= k < dout' ==> output[k] == m(data + (k - dout))
  {
    assert output[..][..dout] == output[..dout];
    if dout + length > olen {
      return dout + length;
    }
    for k := 0 to length
      invariant output[..dout + k] == old(output[..dout]) + BytesAt(m, data, k)
      invariant output[dout + length..] == old(output[dout + length..])
      invariant forall j: nat :: dout <= j < dout + k ==> output[j] == m(data + (j - dout))
    {
      output[dout + k] := m(data + k);
    }
    dout' := dout + length;
    assert output[..][..dout'] == output[..dout'] && output[..][dout'..] == output[dout'..];
  }

  /** One token: consumed and applied, refused past the barrier, or not a token at all. */
  method StbDecompressToken(output: array<Octet>, dout: nat, m: Memory, i: nat, olen: nat) returns (i': nat, dout': nat)
    requires dout <= olen <= output.Length
    modifies output
    ensures match TokenAt(m, i)
            case None => i' == i && dout' == dout && output[..] == old(output[..])
            case Some((t, end)) => i' == end && Step(old(output[..]), output[..], dout, dout', olen, t)
  {
    hide In2, In3, Step;
    Low2(m, i);
    i', dout' := i, dout;
    if m(i) >= 0x20 {
      if m(i) >= 0x80 {
        dout' := StbMatch(output, dout, dout - m(i + 1) - 1, m(i) - 0x80 + 1, olen);
        i' := i + 2;
      } else if m(i) >= 0x40 {
        dout' := StbMatch(output, dout, dout - (In2(m, i) - 0x4000 + 1), m(i + 2) + 1, olen);
        i' := i + 3;
      } else {
        dout' := StbLit(output, dout, m, i + 1, m(i) - 0x20 + 1, olen);
        i' := i + 1 + (m(i) - 0x20 + 1);
      }
    } else {
      if m(i) >= 0x18 {
        dout' := StbMatch(output, dout, dout - (In3(m, i) - 0x18_0000 + 1), m(i + 3) + 1, olen);
        i' := i + 4;
      } else if m(i) >= 0x10 {
        dout' := StbMatch(output, dout, dout - (In3(m, i) - 0x10_0000 + 1), In2(m, i + 3) + 1, olen);
        i' := i + 5;
      } else if m(i) >= 0x08 {
        dout' := StbLit(output, dout, m, i + 2, In2(m, i) - 0x0800 + 1, olen);
        i' := i + 2 + (In2(m, i) - 0x0800 + 1);
      } else if m(i) == 0x07 {
        dout' := StbLit(output, dout, m, i + 3, In2(m, i + 1) + 1, olen);
        i' := i + 3 + (In2(m, i + 1) + 1);
      } else if m(i) == 0x06 {
        dout' := StbMatch(output, dout, dout - (In3(m, i + 1) + 1), m(i + 4) + 1, olen);
        i' := i + 5;
      } else if m(i) == 0x04 {
        dout' := StbMatch(output, dout, dout - (In3(m, i + 1) + 1), In2(m, i + 4) + 1, olen);
        i' := i + 6;
      }
    }
  }

  /** A nonzero length is returned exactly when the whole input is a valid stream for a nonempty output,
      which then fills the array; bytes beyond the declared length are never touched. */
  method StbDecompress(output: array<Octet>, m: Memory) returns (length: nat)
    requires OutputLength(m) <= output.Length
    modifies output
    ensures output[OutputLength(m)..] == old(output[OutputLength(m)..])
    ensures length == if HeaderOk(m) && Decode(m, 16, [], OutputLength(m)).Some? then OutputLength(m) else 0
    ensures length != 0 ==> Decode(m, 16, [], OutputLength(m)) == Some(output[..length])
  {
    hide Checksum, TokenAt, In4;
    if In4(m, 0) != SIGNATURE || In4(m, 4) != 0 {
      return 0;
    }
    var olen := OutputLength(m);
    var i, dout := 16, 0;
    assert output[..0] == [];
    while true
      invariant 0 <= dout <= olen
      invariant Decode(m, i, output[..dout], olen) == Decode(m, 16, [], olen)
      invariant output[olen..] == old(output[olen..])
      decreases olen - dout
    {
      var oldI := i;
      ghost var before := output[..];
      assert before[..dout] == output[..dout];
      var i', dout' := StbDecompressToken(output, dout, m, i, olen);
      if i' == oldI {
        if m(i) == 0x05 && m(i + 1) == 0xFA {
          if dout != olen {
            return 0;
          }
          LengthFits(m, 8);
          var sum := StbAdler32(1, output, olen);
          if sum != In4(m, i + 2) {
            return 0;
          }
          return olen;
        }
        return 0;
      }
      assert dout' > olen || output[..][..dout'] == output[..dout'];
      assert output[..][olen..] == output[olen..] && before[olen..] == old(output[olen..]);
      if dout' > olen {
        return 0;
      }
      i, dout := i', dout';
    }
  }

  lemma LengthFits(m: Memory, p: nat)
    ensures In4(m, p) < U32
  {}

  /** The decoder accepts exactly the valid streams: the header, the encoding of tokens in any of their
      forms, the end marker and the checksum of what the tokens mean. */
  lemma AcceptsExactlyStreams(m: Memory, out: seq<Octet>)
    ensures Decode(m, 16, [], OutputLength(m)) == Some(out)
       <==> |out| == OutputLength(m) && exists cs :: StreamAt(m, 16, cs, out) && Meaning([], Tokens(cs)) == Some(out)
  {
    if Decode(m, 16, [], OutputLength(m)) == Some(out) {
      var cs := DecodeSound(m, 16, [], OutputLength(m));
    }
    if |out| == OutputLength(m) && exists cs :: StreamAt(m, 16, cs, out) && Meaning([], Tokens(cs)) == Some(out) {
      var cs :| StreamAt(m, 16, cs, out) && Meaning([], Tokens(cs)) == Some(out);
      DecodeComplete(m, 16, cs, [], out);
    }
  }
}
