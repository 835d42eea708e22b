/** OptimizedBinaryPacketSerializer: little-endian writers over a pre-sized buffer, the
    12-byte header that carries an XXH32 of the payload, and the parser that checks it. */
module PacketCodec {
  import opened Words
  import opened XxHash32
  import opened CompactReader

  const MAGIC: nat := 0x2340
  const VERSION: Byte := 2
  const HEADER: nat := 12
  const MAX_PACKET_TYPE: nat := 200

  /** The text an engine string passes to its UTF-8 converter ends at the first NUL. */
  type Text = s: string | forall i :: 0 <= i < |s| ==> s[i] != '\0'

  // ---- Encodings ----

  function LowByte(v: nat): Byte { (v % 256) as Byte }

  function Encode16(v: nat): (s: seq<Byte>)
    ensures |s| == 2
  {
    [LowByte(v), LowByte(v / 256)]
  }

  function Encode32(v: nat): (s: seq<Byte>)
    ensures |s| == 4
  {
    [LowByte(v), LowByte(v / 256), LowByte(v / 0x1_0000), LowByte(v / 0x100_0000)]
  }

  /** The UTF-8 form of one code point (section 3 of RFC 3629). */
  function Utf8Char(c: char): (s: seq<Byte>)
    ensures 1 <= |s| <= 4 && (|s| == 1 <==> c < 128 as char)
  {
    var u := c as nat;
    if u < 0x80 then [LowByte(u)]
    else if u < 0x800 then [LowByte(0xC0 + u / 0x40), LowByte(0x80 + u % 0x40)]
    else if u < 0x1_0000 then
      [LowByte(0xE0 + u / 0x1000), LowByte(0x80 + u / 0x40 % 0x40), LowByte(0x80 + u % 0x40)]
    else
      [LowByte(0xF0 + u / 0x4_0000), LowByte(0x80 + u / 0x1000 % 0x40),
       LowByte(0x80 + u / 0x40 % 0x40), LowByte(0x80 + u % 0x40)]
  }

  function Utf8(s: string): (b: seq<Byte>)
    ensures |s| <= |b| <= 4 * |s|
    ensures |b| == |s| <==> Ascii(s)
  {
    if s == [] then [] else Utf8Char(s[0]) + Utf8(s[1..])
  }

  predicate Ascii(s: string) { forall i :: 0 <= i < |s| ==> s[i] < 128 as char }

  /** The length prefix holds only 16 bits of the byte length. */
  function EncodeString(s: string): seq<Byte> { Encode16(|Utf8(s)|) + Utf8(s) }

  function EncodeStrings(ss: seq<string>): seq<Byte> {
    if ss == [] then [] else EncodeStrings(ss[..|ss| - 1]) + EncodeString(ss[|ss| - 1])
  }

  /** The count prefix holds only 8 bits of the count. */
  function EncodeStringVector(ss: seq<string>): seq<Byte> { [LowByte(|ss|)] + EncodeStrings(ss) }

  function HashBytes(h: Word): (s: seq<Byte>)
    ensures |s| == 4
  {
    [(h & 0xFF) as Byte, ((h >> 8) & 0xFF) as Byte, ((h >> 16) & 0xFF) as Byte, ((h >> 24) & 0xFF) as Byte]
  }

  function Header(type': Byte, payload: seq<Byte>): (s: seq<Byte>)
    ensures |s| == HEADER
  {
    Encode16(MAGIC) + [VERSION, type'] + Encode32(|payload|) + HashBytes(XXH32(payload, 0))
  }

  function Packet(type': Byte, payload: seq<Byte>): seq<Byte> { Header(type', payload) + payload }

  // ---- Writers ----

  method Push(buffer: array<Byte>, value: Byte, offset: nat) returns (next: nat)
    requires offset < buffer.Length
    modifies buffer
    ensures next == offset + 1
    ensures buffer[..] == old(buffer[..])[offset := value]
  {
    buffer[offset] := value;
    next := offset + 1;
  }

  /** The buffer after writing s at offset and nothing else. */
  ghost function Written(before: seq<Byte>, offset: nat, s: seq<Byte>): seq<Byte>
    requires offset + |s| <= |before|
  {
    before[..offset] + s + before[offset + |s|..]
  }

  lemma WriteOne(before: seq<Byte>, offset: nat, s: seq<Byte>, b: Byte)
    requires offset + |s| < |before|
    ensures Written(before, offset, s)[offset + |s| := b] == Written(before, offset, s + [b])
  {}

  lemma WriteFirst(before: seq<Byte>, offset: nat, b: Byte)
    requires offset < |before|
    ensures Written(before, offset, [b] + EncodeStrings([])) == before[offset := b]
    ensures |EncodeStrings([])| == 0
  {}

  lemma WriteMore(before: seq<Byte>, offset: nat, s: seq<Byte>, t: seq<Byte>)
    requires offset + |s| + |t| <= |before|
    ensures Written(Written(before, offset, s), offset + |s|, t) == Written(before, offset, s + t)
  {}

  method SerializeUInt16(buffer: array<Byte>, value: nat, offset: nat) returns (next: nat)
    requires offset + 2 <= buffer.Length
    modifies buffer
    ensures next == offset + 2 && buffer[..] == Written(old(buffer[..]), offset, Encode16(value))
  {
    next := Push(buffer, LowByte(value), offset);
    next := Push(buffer, LowByte(value / 256), next);
  }

  method SerializeUInt32(buffer: array<Byte>, value: nat, offset: nat) returns (next: nat)
    requires offset + 4 <= buffer.Length
    modifies buffer
    ensures next == offset + 4 && buffer[..] == Written(old(buffer[..]), offset, Encode32(value))
  {
    next := Push(buffer, LowByte(value), offset);
    next := Push(buffer, LowByte(value / 256), next);
    next := Push(buffer, LowByte(value / 0x1_0000), next);
    next := Push(buffer, LowByte(value / 0x100_0000), next);
  }

  method SerializeString(buffer: array<Byte>, str: Text, offset: nat) returns (next: nat)
    requires offset + |EncodeString(str)| <= buffer.Length
    modifies buffer
    ensures next == offset + |EncodeString(str)|
    ensures buffer[..] == Written(old(buffer[..]), offset, EncodeString(str))
  {
    hide Utf8Char, LowByte;
    var bytes := Utf8(str);
    ghost var before := buffer[..];
    next := SerializeUInt16(buffer, |bytes| % 0x1_0000, offset);
    Encode16Wraps(|bytes|);
    for i := 0 to |bytes|
      invariant next == offset + 2 + i
      invariant buffer[..] == Written(before, offset, Encode16(|bytes|) + bytes[..i])
    {
      WriteOne(before, offset, Encode16(|bytes|) + bytes[..i], bytes[i]);
      assert Encode16(|bytes|) + bytes[..i] + [bytes[i]] == Encode16(|bytes|) + bytes[..i + 1];
      next := Push(buffer, bytes[i], next);
    }
    assert bytes[..|bytes|] == bytes;
  }

  lemma Digits16(v: nat)
    ensures v % 0x1_0000 == v % 256 + 256 * (v / 256 % 256)
  {
    var a, r := v / 256, v % 256;
    var b, s := a / 256, a % 256;
    assert v == 0x1_0000 * b + (256 * s + r);
  }

  lemma Digits32(v: nat)
    requires v < 0x1_0000_0000
    ensures v == v % 256 + 256 * (v / 256 % 256) + 0x1_0000 * (v / 0x1_0000 % 256 + 256 * (v / 0x100_0000 % 256))
  {
    Digits16(v);
    Digits16(v / 0x1_0000);
    assert v / 0x1_0000 / 256 == v / 0x100_0000;
  }

  /** Only the low 16 bits of a length are written. */
  lemma Encode16Wraps(v: nat)
    ensures Encode16(v % 0x1_0000) == Encode16(v)
  {
    Digits16(v);
    var r, s := v % 256, v / 256 % 256;
    assert (256 * s + r) / 256 == s && (256 * s + r) % 256 == r;
  }

  lemma {:induction false} EncodePrefix(ss: seq<string>, i: nat)
    requires i <= |ss|
    ensures |EncodeStrings(ss[..i])| <= |EncodeStrings(ss)|
    ensures i < |ss| ==> EncodeStrings(ss[..i + 1]) == EncodeStrings(ss[..i]) + EncodeString(ss[i])
    decreases |ss| - i
  {
    hide EncodeString;
    if i < |ss| {
      assert ss[..i + 1][..i] == ss[..i];
      EncodePrefix(ss, i + 1);
    } else {
      assert ss[..i] == ss;
    }
  }

  method SerializeStringVector(buffer: array<Byte>, vec: seq<Text>, offset: nat) returns (next: nat)
    requires offset + |EncodeStringVector(vec)| <= buffer.Length
    modifies buffer
    ensures next == offset + |EncodeStringVector(vec)|
    ensures buffer[..] == Written(old(buffer[..]), offset, EncodeStringVector(vec))
  {
    hide EncodeString, EncodeStrings, Written, LowByte;
    ghost var before, count := buffer[..], [LowByte(|vec|)];
    next := Push(buffer, LowByte(|vec|), offset);
    WriteFirst(before, offset, LowByte(|vec|));
    for i := 0 to |vec|
      invariant next == offset + 1 + |EncodeStrings(vec[..i])|
      invariant |EncodeStrings(vec[..i])| <= |EncodeStrings(vec)|
      invariant buffer[..] == Written(before, offset, count + EncodeStrings(vec[..i]))
    {
      EncodePrefix(vec, i);
      EncodePrefix(vec, i + 1);
      WriteMore(before, offset, count + EncodeStrings(vec[..i]), EncodeString(vec[i]));
      assert count + EncodeStrings(vec[..i]) + EncodeString(vec[i]) == count + EncodeStrings(vec[..i + 1]);
      next := SerializeString(buffer, vec[i], next);
    }
    assert vec[..|vec|] == vec;
  }

  /** Turns the size - 12 bytes after the header space into a packet, leaving what follows them. */
  method WrapPacketWithXXHash(type': Byte, data: array<Byte>, size: nat)
    requires HEADER <= size <= data.Length < 0x8000_0000
    modifies data
    ensures data[..] == Packet(type', old(data[HEADER..size])) + old(data[size..])
  {
    hide XXH32, LowByte, HashBytes;
    var hash := Hash(data, HEADER, size, 0);
    var header := Encode16(MAGIC) + [VERSION, type'] + Encode32(size - HEADER) + HashBytes(hash);
    for i := 0 to HEADER
      invariant data[..i] == header[..i] && data[HEADER..] == old(data[HEADER..])
    {
      data[i] := header[i];
    }
    assert data[..] == data[..HEADER] + data[HEADER..];
    assert old(data[HEADER..]) == old(data[HEADER..size]) + old(data[size..]);
  }

  method ChangePacket(data: array<Byte>, type': Byte)
    requires HEADER <= data.Length
    modifies data
    ensures data[..] == old(data[..])[3 := type']
  {
    data[3] := type';
  }

  // ---- The parser ----

  function PayloadSize(d: seq<Byte>): nat
    requires HEADER <= |d|
  {
    Value32(d[4], d[5], d[6], d[7])
  }

  function PayloadOf(d: seq<Byte>): seq<Byte>
    requires HEADER <= |d| && HEADER + PayloadSize(d) <= |d|
  {
    d[HEADER..HEADER + PayloadSize(d)]
  }

  predicate Accepted(d: seq<Byte>) {
    && HEADER <= |d|
    && Value16(d[0], d[1]) == MAGIC && d[2] == VERSION
    && HEADER + PayloadSize(d) <= |d|
    && XXH32(PayloadOf(d), 0) == LittleEndian(d[8], d[9], d[10], d[11])
    && Value(d[3]) < MAX_PACKET_TYPE
  }

  method ParseSecurePacket(data: array<Byte>, reader: Reader) returns (ok: bool, type': Byte)
    requires reader.Valid()
    modifies reader
    ensures ok <==> Accepted(data[..])
    ensures ok ==> && reader.Valid() && reader.Payload() == PayloadOf(data[..])
                   && reader.dataOffset == 0 && type' == data[3]
    ensures !ok ==> unchanged(reader)
  {
    hide XXH32, Value, Value16, Value32, LittleEndian;
    ok, type' := false, 0;
    if data.Length < HEADER {
      return;
    }
    if Value16(data[0], data[1]) != MAGIC || data[2] != VERSION {
      return;
    }
    var payloadSize := Value32(data[4], data[5], data[6], data[7]);
    if data.Length < HEADER + payloadSize {
      return;
    }
    var calculated := Hash(data, HEADER, HEADER + payloadSize, 0);
    assert data[..][HEADER..HEADER + payloadSize] == data[HEADER..HEADER + payloadSize];
    if calculated != LittleEndian(data[8], data[9], data[10], data[11]) {
      return;
    }
    if Value(data[3]) >= MAX_PACKET_TYPE {
      return;
    }
    reader.Init(data, HEADER, payloadSize);
    ok, type' := true, data[3];
  }

  // ---- Byte round trips ----

  lemma ByteValue(v: nat)
    ensures Value(LowByte(v)) == v % 256
  {
    NarrowByte(v % 256);
  }

  lemma Decode16(v: nat)
    ensures var s := Encode16(v); Value16(s[0], s[1]) == v % 0x1_0000
  {
    hide LowByte, Value;
    ByteValue(v);
    ByteValue(v / 256);
    Digits16(v);
  }

  lemma Decode32(v: nat)
    requires v < 0x1_0000_0000
    ensures var s := Encode32(v); Value32(s[0], s[1], s[2], s[3]) == v
  {
    hide LowByte, Value;
    ByteValue(v);
    ByteValue(v / 256);
    ByteValue(v / 0x1_0000);
    ByteValue(v / 0x100_0000);
    Digits32(v);
  }

  /** Signed values are written as their low bytes and read back in two's complement. */
  lemma SignedRoundTrip(v: int)
    ensures -0x8000 <= v < 0x8000 ==> Signed(NextUInt16(Encode16(v % 0x1_0000), 0).value, 0x1_0000) == v
    ensures -0x8000_0000 <= v < 0x8000_0000 ==>
              Signed(NextUInt32(Encode32(v % 0x1_0000_0000), 0).value, 0x1_0000_0000) == v
  {
    hide Encode16, Encode32, NextUInt16, NextUInt32;
    Next16(v % 0x1_0000);
    Next32(v % 0x1_0000_0000);
    TwosComplement(v);
  }

  /** Numbers read back from wherever they were written. */
  lemma NumberRoundTrip(before: seq<Byte>, v: nat, after: seq<Byte>)
    ensures v < 0x100 ==> NextUInt8(before + [LowByte(v)] + after, |before|) == Read(v, |before| + 1)
    ensures v < 0x1_0000 ==> NextUInt16(before + Encode16(v) + after, |before|) == Read(v, |before| + 2)
    ensures v < 0x1_0000_0000 ==> NextUInt32(before + Encode32(v) + after, |before|) == Read(v, |before| + 4)
  {
    hide LowByte, Value, Value16, Value32, Encode16, Encode32;
    var b := |before|;
    if v < 0x100 {
      ByteValue(v);
    }
    if v < 0x1_0000 {
      Decode16(v);
      var p := before + Encode16(v) + after;
      assert p[b] == Encode16(v)[0] && p[b + 1] == Encode16(v)[1];
    }
    if v < 0x1_0000_0000 {
      Decode32(v);
      var p, s := before + Encode32(v) + after, Encode32(v);
      assert p[b] == s[0] && p[b + 1] == s[1] && p[b + 2] == s[2] && p[b + 3] == s[3];
    }
  }

  lemma TwosComplement(v: int)
    ensures -0x8000 <= v < 0x8000 ==> Signed(v % 0x1_0000, 0x1_0000) == v
    ensures -0x8000_0000 <= v < 0x8000_0000 ==> Signed(v % 0x1_0000_0000, 0x1_0000_0000) == v
  {}

  lemma Next16(v: nat)
    requires v < 0x1_0000
    ensures NextUInt16(Encode16(v), 0).value == v
  {
    hide LowByte, Value, Value16;
    Decode16(v);
  }

  lemma Next32(v: nat)
    requires v < 0x1_0000_0000
    ensures NextUInt32(Encode32(v), 0).value == v
  {
    hide LowByte, Value, Value32;
    Decode32(v);
  }

  lemma DecodeHash(h: Word)
    ensures var s := HashBytes(h); LittleEndian(s[0], s[1], s[2], s[3]) == h
  {}

  /** Each byte of an encoded number is a digit to base 256, the lowest first. */
  lemma LittleDigits(v: nat)
    ensures Value(Encode16(v)[0]) == v % 256 && Value(Encode16(v)[1]) == v / 256 % 256
    ensures Value(Encode32(v)[0]) == v % 256 && Value(Encode32(v)[1]) == v / 256 % 256
    ensures Value(Encode32(v)[2]) == v / 0x1_0000 % 256 && Value(Encode32(v)[3]) == v / 0x100_0000 % 256
  {
    hide LowByte, Value;
    ByteValue(v);
    ByteValue(v / 256);
    ByteValue(v / 0x1_0000);
    ByteValue(v / 0x100_0000);
  }

  predicate Continues(b: Byte) { 0x80 <= Value(b) < 0xC0 }

  /** The shortest form of a character: a lead byte that tells the length, and continuation bytes that spell
      the rest of it (section 3 of RFC 3629). */
  lemma Utf8Spells(c: char)
    ensures var s, u := Utf8Char(c), c as int;
            && (u < 0x80 ==> |s| == 1 && Value(s[0]) == u)
            && (0x80 <= u < 0x800 ==>
                  |s| == 2 && Continues(s[1]) && u == 0x40 * (Value(s[0]) - 0xC0) + (Value(s[1]) - 0x80))
            && (0x800 <= u < 0x1_0000 ==>
                  && |s| == 3 && Continues(s[1]) && Continues(s[2])
                  && u == 0x1000 * (Value(s[0]) - 0xE0) + 0x40 * (Value(s[1]) - 0x80) + (Value(s[2]) - 0x80))
            && (0x1_0000 <= u ==>
                  && |s| == 4 && Continues(s[1]) && Continues(s[2]) && Continues(s[3])
                  && u == 0x4_0000 * (Value(s[0]) - 0xF0) + 0x1000 * (Value(s[1]) - 0x80)
                          + 0x40 * (Value(s[2]) - 0x80) + (Value(s[3]) - 0x80))
  {
    hide Utf8Char, Continues, Value;
    var u := c as nat;
    if u < 0x80 {
      OneByte(c);
    } else if u < 0x800 {
      TwoBytes(c);
    } else if u < 0x1_0000 {
      ThreeBytes(c);
    } else {
      FourBytes(c);
    }
  }

  lemma OneByte(c: char)
    requires c as int < 0x80
    ensures var s := Utf8Char(c); |s| == 1 && Value(s[0]) == c as int
  {
    hide LowByte, Value;
    ByteValue(c as nat);
  }

  lemma SmallValue(v: nat)
    requires v < 256
    ensures Value(LowByte(v)) == v
  {
    ByteValue(v);
  }

  lemma Continuation(v: nat)
    ensures Value(LowByte(0x80 + v % 0x40)) == 0x80 + v % 0x40 && Continues(LowByte(0x80 + v % 0x40))
  {
    SmallValue(0x80 + v % 0x40);
  }

  lemma TwoBytes(c: char)
    requires 0x80 <= c as int < 0x800
    ensures var s := Utf8Char(c);
            |s| == 2 && Continues(s[1]) && c as int == 0x40 * (Value(s[0]) - 0xC0) + (Value(s[1]) - 0x80)
  {
    hide LowByte, Value, Continues;
    var u := c as nat;
    SixBits(u);
    SmallValue(0xC0 + u / 0x40);
    Continuation(u);
  }

  lemma ThreeBytes(c: char)
    requires 0x800 <= c as int < 0x1_0000
    ensures var s := Utf8Char(c);
            && |s| == 3 && Continues(s[1]) && Continues(s[2])
            && c as int == 0x1000 * (Value(s[0]) - 0xE0) + 0x40 * (Value(s[1]) - 0x80) + (Value(s[2]) - 0x80)
  {
    hide LowByte, Value, Continues;
    var u := c as nat;
    SixBits(u);
    SmallValue(0xE0 + u / 0x1000);
    Continuation(u / 0x40);
    Continuation(u);
  }

  lemma FourBytes(c: char)
    requires 0x1_0000 <= c as int
    ensures var s := Utf8Char(c);
            && |s| == 4 && Continues(s[1]) && Continues(s[2]) && Continues(s[3])
            && c as int == 0x4_0000 * (Value(s[0]) - 0xF0) + 0x1000 * (Value(s[1]) - 0x80)
                           + 0x40 * (Value(s[2]) - 0x80) + (Value(s[3]) - 0x80)
  {
    hide LowByte, Value, Continues;
    var u := c as nat;
    SixBits(u);
    SmallValue(0xF0 + u / 0x4_0000);
    Continuation(u / 0x1000);
    Continuation(u / 0x40);
    Continuation(u);
  }

  lemma SixBits(u: nat)
    ensures u == 0x40 * (u / 0x40) + u % 0x40
    ensures u / 0x40 == 0x40 * (u / 0x1000) + u / 0x40 % 0x40
    ensures u / 0x1000 == 0x40 * (u / 0x4_0000) + u / 0x1000 % 0x40
  {
    assert u / 0x40 / 0x40 == u / 0x1000 && u / 0x1000 / 0x40 == u / 0x4_0000;
  }

  // ---- Packets ----

  /** Whatever follows it in the buffer, a wrapped packet parses if and only if its type is below
      the limit, and parses to the payload it was made from. */
  lemma WrappedParses(type': Byte, payload: seq<Byte>, trailing: seq<Byte>)
    requires |payload| < 0x1_0000_0000
    ensures var d := Packet(type', payload) + trailing;
            (Accepted(d) <==> Value(type') < 200)
            && HEADER + PayloadSize(d) <= |d| && PayloadOf(d) == payload && d[3] == type'
  {
    hide XXH32, LowByte, Value, LittleEndian, HashBytes;
    var d := Packet(type', payload) + trailing;
    var size, hash := Encode32(|payload|), HashBytes(XXH32(payload, 0));
    Decode16(MAGIC);
    Decode32(|payload|);
    DecodeHash(XXH32(payload, 0));
    assert d[..HEADER] == Header(type', payload);
    assert d[0] == Encode16(MAGIC)[0] && d[1] == Encode16(MAGIC)[1];
    assert d[4] == size[0] && d[5] == size[1] && d[6] == size[2] && d[7] == size[3];
    assert d[8] == hash[0] && d[9] == hash[1] && d[10] == hash[2] && d[11] == hash[3];
    assert d[HEADER..HEADER + |payload|] == payload;
  }

  /** The twelve bytes in front of the payload. */
  lemma PacketLayout(type': Byte, payload: seq<Byte>)
    requires |payload| < 0x1_0000_0000
    ensures var d := Packet(type', payload);
            && |d| == 12 + |payload| && d[12..] == payload
            && d[0] == 0x40 && d[1] == 0x23 && d[2] == 2 && d[3] == type'
            && Value(d[4]) + 0x100 * Value(d[5]) + 0x1_0000 * Value(d[6]) + 0x100_0000 * Value(d[7]) == |payload|
            && LittleEndian(d[8], d[9], d[10], d[11]) == XXH32(payload, 0)
  {
    hide XXH32, LowByte, Value, LittleEndian, HashBytes;
    WrappedParses(type', payload, []);
    assert Packet(type', payload) + [] == Packet(type', payload);
    var d, size, hash := Packet(type', payload), Encode32(|payload|), HashBytes(XXH32(payload, 0));
    Decode32(|payload|);
    DecodeHash(XXH32(payload, 0));
    MagicBytes();
    assert d[..HEADER] == Header(type', payload);
    assert d[4] == size[0] && d[5] == size[1] && d[6] == size[2] && d[7] == size[3];
    assert d[8] == hash[0] && d[9] == hash[1] && d[10] == hash[2] && d[11] == hash[3];
  }

  lemma MagicBytes()
    ensures Encode16(MAGIC) == [0x40, 0x23]
  {
    assert 0x2340 % 256 == 0x40 && 0x2340 / 256 == 0x23;
  }

  lemma EncodeBack16(a: Byte, b: Byte)
    ensures Encode16(Value16(a, b)) == [a, b]
  {
    hide LowByte, Value;
    LowBack(a, Value(b));
    assert Value16(a, b) / 256 == Value(b);
    LowBack(b, 0);
  }

  lemma EncodeBack32(a: Byte, b: Byte, c: Byte, d: Byte)
    ensures Value32(a, b, c, d) < 0x1_0000_0000 && Encode32(Value32(a, b, c, d)) == [a, b, c, d]
  {
    hide LowByte, Value;
    var v := Value32(a, b, c, d);
    LowBack(a, Value(b) + 256 * Value(c) + 0x1_0000 * Value(d));
    LowBack(b, Value(c) + 256 * Value(d));
    LowBack(c, Value(d));
    LowBack(d, 0);
    assert v / 256 == Value(b) + 256 * (Value(c) + 256 * Value(d));
    assert v / 0x1_0000 == Value(c) + 256 * Value(d) && v / 0x100_0000 == Value(d);
  }

  lemma LowBack(b: Byte, high: nat)
    ensures LowByte(Value(b) + 256 * high) == b
  {
    assert (Value(b) + 256 * high) % 256 == Value(b);
    ByteBack(b);
  }

  lemma ByteBack(b: Byte)
    ensures (Value(b)) as Byte == b
  {}

  lemma EncodeHashBack(a: Byte, b: Byte, c: Byte, d: Byte)
    ensures HashBytes(LittleEndian(a, b, c, d)) == [a, b, c, d]
  {}

  /** The parser accepts exactly what the writer writes, under a type below 200 and followed by anything. */
  lemma AcceptsExactlyPackets(d: seq<Byte>)
    ensures Accepted(d) <==> exists type', payload, trailing :: WrittenAs(d, type', payload, trailing)
  {
    hide XXH32, LowByte, Value, LittleEndian, HashBytes, Value16, Value32, Encode16, Encode32;
    if Accepted(d) {
      var payload, trailing := PayloadOf(d), d[HEADER + PayloadSize(d)..];
      EncodeBack16(d[0], d[1]);
      EncodeBack32(d[4], d[5], d[6], d[7]);
      EncodeHashBack(d[8], d[9], d[10], d[11]);
      assert d[..HEADER] == [d[0], d[1]] + [d[2], d[3]] + [d[4], d[5], d[6], d[7]] + [d[8], d[9], d[10], d[11]];
      assert d == d[..HEADER] + payload + trailing;
      assert WrittenAs(d, d[3], payload, trailing);
    }
    if exists type', payload, trailing :: WrittenAs(d, type', payload, trailing) {
      var type', payload, trailing :| WrittenAs(d, type', payload, trailing);
      WrappedParses(type', payload, trailing);
    }
  }

  ghost predicate WrittenAs(d: seq<Byte>, type': Byte, payload: seq<Byte>, trailing: seq<Byte>) {
    Value(type') < 200 && |payload| < 0x1_0000_0000 && d == Packet(type', payload) + trailing
  }

  /** Changing the type of an accepted packet changes the reported type and nothing else: the packet
      stays accepted if and only if the new type is below the limit. */
  lemma ChangeOnlyType(d: seq<Byte>, type': Byte)
    requires Accepted(d)
    ensures var e := d[3 := type'];
            (Accepted(e) <==> Value(type') < 200)
            && HEADER + PayloadSize(e) <= |e| && PayloadOf(e) == PayloadOf(d) && e[3] == type'
  {
    hide XXH32, Value, LittleEndian;
    var e := d[3 := type'];
    assert PayloadSize(e) == PayloadSize(d);
    assert PayloadOf(e) == PayloadOf(d);
  }

  /** A corrupted copy of an accepted packet, different only in one aligned word or one tail byte of
      its payload, is rejected. */
  lemma CorruptionRejected(d: seq<Byte>, e: seq<Byte>, p: nat, u: nat)
    requires Accepted(d) && |e| == |d| && e[..HEADER] == d[..HEADER]
    requires DifferOnlyAt(PayloadOf(d), e[HEADER..HEADER + PayloadSize(d)], p, u)
    requires HashUnit(PayloadSize(d), p, u)
    ensures !Accepted(e)
  {
    hide XXH32, Value, LittleEndian;
    assert forall i :: 0 <= i < HEADER ==> e[i] == e[..HEADER][i] == d[..HEADER][i] == d[i];
    assert PayloadSize(e) == PayloadSize(d);
    UnitChangeDetected(PayloadOf(d), PayloadOf(e), p, u, 0);
  }

  // ---- Lists of strings ----

  /** What the reader can give back: ASCII, and at most 100 bytes. */
  predicate Transportable(s: string) { Ascii(s) && |s| <= 100 }

  lemma AsciiBytes(s: string)
    requires Ascii(s)
    ensures Characters(Utf8(s)) == s
  {
    hide Character, LowByte;
    if s != [] {
      AsciiBytes(s[1..]);
      AsciiByte(s[0]);
      assert Utf8(s) == [LowByte(s[0] as nat)] + Utf8(s[1..]);
      assert s == [s[0]] + s[1..];
    }
  }

  lemma AsciiByte(c: char)
    requires c < 128 as char
    ensures Utf8Char(c) == [LowByte(c as nat)] && Character(LowByte(c as nat)) == c
  {
    ByteValue(c as nat);
  }

  /** Reading back one written string returns it if and only if it is transportable; when it is, the
      cursor stands right after it. */
  lemma StringRoundTrip(before: seq<Byte>, s: string, after: seq<Byte>)
    ensures var r := NextString(before + EncodeString(s) + after, |before|);
            (r.value == s <==> Transportable(s))
            && (Transportable(s) ==> r.offset == |before| + |EncodeString(s)|)
  {
    hide Utf8, LowByte, Value, Value16, Character, Ascii;
    var p, b, bytes := before + EncodeString(s) + after, |before|, Utf8(s);
    Decode16(|bytes|);
    assert p[b] == Encode16(|bytes|)[0] && p[b + 1] == Encode16(|bytes|)[1];
    var length := |bytes| % 0x1_0000;
    assert Value16(p[b], p[b + 1]) == length;
    assert p[b + 2..b + 2 + |bytes|] == bytes;
    if Transportable(s) {
      AsciiBytes(s);
    }
  }

  lemma {:induction false} StringsRoundTrip(before: seq<Byte>, ss: seq<string>, after: seq<Byte>)
    requires forall s :: s in ss ==> Transportable(s)
    ensures NextStrings(before + EncodeStrings(ss) + after, |before|, |ss|)
         == Read(ss, |before| + |EncodeStrings(ss)|)
  {
    hide EncodeString, NextString, Transportable;
    var p := before + EncodeStrings(ss) + after;
    if ss != [] {
      var front, last := ss[..|ss| - 1], ss[|ss| - 1];
      assert p == before + EncodeStrings(front) + (EncodeString(last) + after);
      StringsRoundTrip(before, front, EncodeString(last) + after);
      assert p == (before + EncodeStrings(front)) + EncodeString(last) + after;
      StringRoundTrip(before + EncodeStrings(front), last, after);
      assert ss == front + [last];
    }
  }

  /** The first string that is not transportable comes back different. */
  lemma FirstBadString(before: seq<Byte>, ss: seq<string>, k: nat, after: seq<Byte>)
    requires k < |ss| && !Transportable(ss[k]) && forall i :: 0 <= i < k ==> Transportable(ss[i])
    ensures NextStrings(before + EncodeStrings(ss) + after, |before|, |ss|).value != ss
  {
    hide EncodeString, NextString, Transportable;
    var p := before + EncodeStrings(ss) + after;
    SplitStrings(ss, k);
    var rest := EncodeStrings(ss)[|EncodeStrings(ss[..k + 1])|..];
    assert p == before + EncodeStrings(ss[..k]) + (EncodeString(ss[k]) + rest + after);
    StringsRoundTrip(before, ss[..k], EncodeString(ss[k]) + rest + after);
    assert p == (before + EncodeStrings(ss[..k])) + EncodeString(ss[k]) + (rest + after);
    StringRoundTrip(before + EncodeStrings(ss[..k]), ss[k], rest + after);
    ReadPrefix(p, |before|, k + 1, |ss|);
  }

  lemma {:induction false} SplitStrings(ss: seq<string>, k: nat)
    requires k < |ss|
    ensures EncodeStrings(ss[..k + 1]) == EncodeStrings(ss[..k]) + EncodeString(ss[k])
    ensures EncodeStrings(ss[..k + 1]) <= EncodeStrings(ss)
    decreases |ss| - k
  {
    hide EncodeString;
    assert ss[..k + 1][..k] == ss[..k];
    if k + 1 < |ss| {
      SplitStrings(ss, k + 1);
    } else {
      assert ss[..k + 1] == ss;
    }
  }

  lemma {:induction false} ReadPrefix(p: seq<Byte>, offset: nat, j: nat, n: nat)
    requires offset <= |p| && j <= n
    ensures NextStrings(p, offset, j).value == NextStrings(p, offset, n).value[..j]
    decreases n
  {
    hide NextString;
    if j < n {
      ReadPrefix(p, offset, j, n - 1);
    }
  }

  /** A list of strings survives the wire if and only if it has at most 255 entries and each is ASCII
      of at most 100 bytes; the cursor then ends exactly at the end of the payload. */
  lemma VectorRoundTrip(ss: seq<Text>)
    ensures var p := EncodeStringVector(ss); var r := NextStringArray(p, 0);
            (r.value == ss <==> |ss| <= 255 && forall s :: s in ss ==> Transportable(s))
            && (r.value == ss ==> r.offset == |p|)
  {
    hide EncodeString, NextString, Transportable, LowByte, Value;
    var p := EncodeStringVector(ss);
    ByteValue(|ss|);
    if |ss| <= 255 {
      assert p == [LowByte(|ss|)] + EncodeStrings(ss) + [];
      if forall s :: s in ss ==> Transportable(s) {
        StringsRoundTrip([LowByte(|ss|)], ss, []);
      } else {
        var k := FirstBad(ss);
        FirstBadString([LowByte(|ss|)], ss, k, []);
      }
    }
  }

  lemma FirstBad(ss: seq<string>) returns (k: nat)
    requires exists s :: s in ss && !Transportable(s)
    ensures k < |ss| && !Transportable(ss[k]) && forall i :: 0 <= i < k ==> Transportable(ss[i])
  {
    k := 0;
    while Transportable(ss[k])
      invariant k < |ss| && forall i :: 0 <= i < k ==> Transportable(ss[i])
      invariant exists s :: s in ss[k..] && !Transportable(s)
      decreases |ss| - k
    {
      assert ss[k..] == [ss[k]] + ss[k + 1..];
      k := k + 1;
    }
  }

  /** The whole trip: a transportable list, wrapped under a valid type and followed by arbitrary bytes
      in the receive buffer, is accepted and read back whole. */
  lemma PacketRoundTrip(type': Byte, ss: seq<Text>, trailing: seq<Byte>)
    requires Value(type') < 200 && |ss| <= 255 && forall s :: s in ss ==> Transportable(s)
    ensures var d := Packet(type', EncodeStringVector(ss)) + trailing;
            Accepted(d) && d[3] == type'
            && NextStringArray(PayloadOf(d), 0) == Read(ss, PayloadSize(d))
  {
    hide XXH32, NextStringArray, EncodeStrings;
    VectorSize(ss, 255);
    WrappedParses(type', EncodeStringVector(ss), trailing);
    VectorRoundTrip(ss);
  }

  lemma {:induction false} VectorSize(ss: seq<string>, n: nat)
    requires |ss| <= n && forall s :: s in ss ==> Transportable(s)
    ensures |EncodeStrings(ss)| <= 102 * n
  {
    if ss != [] {
      VectorSize(ss[..|ss| - 1], n - 1);
      assert Transportable(ss[|ss| - 1]);
    }
  }
}
