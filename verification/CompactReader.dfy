/** CompactBinaryReader: a cursor over a received payload. Each read is specified by a
    function of the payload bytes and the offset; the class advances the offset in place. */
module CompactReader {
  import opened Words

  const MAX_STRING: nat := 100

  /** What a read returns and where it leaves the cursor. */
  datatype Read<+T> = Read(value: T, offset: nat)

  function Value(b: Byte): (v: nat)
    ensures v < 256
  {
    b as nat
  }

  function Value16(lo: Byte, hi: Byte): nat { Value(lo) + 256 * Value(hi) }

  function Value32(b0: Byte, b1: Byte, b2: Byte, b3: Byte): nat {
    Value16(b0, b1) + 0x1_0000 * Value16(b2, b3)
  }

  /** Reinterprets an unsigned value of the given modulus as two's complement. */
  function Signed(v: int, modulus: int): int {
    if v < modulus / 2 then v else v - modulus
  }

  predicate HasBytes(p: seq<Byte>, offset: nat, n: nat) { offset + n <= |p| }

  function NextUInt8(p: seq<Byte>, offset: nat): (r: Read<nat>)
    requires offset <= |p|
    ensures offset <= r.offset <= |p|
  {
    if HasBytes(p, offset, 1) then Read(Value(p[offset]), offset + 1) else Read(0, offset)
  }

  function NextUInt16(p: seq<Byte>, offset: nat): (r: Read<nat>)
    requires offset <= |p|
    ensures offset <= r.offset <= |p|
  {
    if HasBytes(p, offset, 2) then Read(Value16(p[offset], p[offset + 1]), offset + 2) else Read(0, offset)
  }

  function NextUInt32(p: seq<Byte>, offset: nat): (r: Read<nat>)
    requires offset <= |p|
    ensures offset <= r.offset <= |p|
  {
    if HasBytes(p, offset, 4) then
      Read(Value32(p[offset], p[offset + 1], p[offset + 2], p[offset + 3]), offset + 4)
    else Read(0, offset)
  }

  function Character(b: Byte): char { Value(b) as char }

  /** One character per byte, whatever the bytes encode. */
  function Characters(bytes: seq<Byte>): (s: string)
    ensures |s| == |bytes|
  {
    seq(|bytes|, i requires 0 <= i < |bytes| => Character(bytes[i]))
  }

  /** A refused string still consumes its length prefix. */
  function NextString(p: seq<Byte>, offset: nat): (r: Read<string>)
    requires offset <= |p|
    ensures offset <= r.offset <= |p| && |r.value| <= MAX_STRING
  {
    if !HasBytes(p, offset, 2) then Read("", offset)
    else
      var length, body := Value16(p[offset], p[offset + 1]), offset + 2;
      if !HasBytes(p, body, length) then Read("", body)
      else if length > MAX_STRING then Read("", body)
      else Read(Characters(p[body..body + length]), body + length)
  }

  /** A nonempty result is exactly the bytes its prefix counts, and the cursor stands behind them; an
      empty one consumed the prefix if there was one. */
  lemma StringRead(p: seq<Byte>, offset: nat)
    requires offset <= |p|
    ensures var r := NextString(p, offset);
            && (r.offset == offset <==> !HasBytes(p, offset, 2))
            && (r.value == "" ==> r.offset == offset || r.offset == offset + 2)
            && (r.value != "" ==>
                  && r.offset == offset + 2 + |r.value| && |r.value| == Value16(p[offset], p[offset + 1])
                  && forall i :: 0 <= i < |r.value| ==> r.value[i] == Character(p[offset + 2 + i]))
  {
    hide Character, Value16;
  }

  function NextStrings(p: seq<Byte>, offset: nat, count: nat): (r: Read<seq<string>>)
    requires offset <= |p|
    ensures offset <= r.offset <= |p| && |r.value| == count
  {
    if count == 0 then Read([], offset)
    else
      var front := NextStrings(p, offset, count - 1);
      var last := NextString(p, front.offset);
      Read(front.value + [last.value], last.offset)
  }

  /** The k-th string of a list is the one read where the k strings before it end. */
  lemma {:induction false} EachString(p: seq<Byte>, offset: nat, count: nat, k: nat)
    requires offset <= |p| && k < count
    ensures NextStrings(p, offset, count).value[k] == NextString(p, NextStrings(p, offset, k).offset).value
    decreases count
  {
    hide NextString;
    if k < count - 1 {
      EachString(p, offset, count - 1, k);
    }
  }

  function NextStringArray(p: seq<Byte>, offset: nat): (r: Read<seq<string>>)
    requires offset <= |p|
    ensures offset <= r.offset <= |p|
  {
    var count := NextUInt8(p, offset);
    NextStrings(p, count.offset, count.value)
  }

  class Reader {
    var dataPtr: array?<Byte>
    var base: nat
    var dataSize: nat
    var dataOffset: nat

    ghost predicate Valid()
      reads this, dataPtr
    {
      && dataOffset <= dataSize
      && (if dataPtr == null then dataSize == 0 else base + dataSize <= dataPtr.Length)
    }

    ghost function Payload(): (p: seq<Byte>)
      requires Valid()
      reads this, dataPtr
      ensures |p| == dataSize
    {
      if dataPtr == null then [] else dataPtr[base..base + dataSize]
    }

    constructor ()
      ensures Valid() && Payload() == [] && dataOffset == 0
    {
      dataPtr, base, dataSize, dataOffset := null, 0, 0, 0;
    }

    method Clear()
      modifies this
      ensures Valid() && Payload() == [] && dataOffset == 0
    {
      dataPtr, base, dataSize, dataOffset := null, 0, 0, 0;
    }

    method Init(data: array<Byte>, from: nat, size: nat)
      requires from + size <= data.Length
      modifies this
      ensures Valid() && dataPtr == data && base == from && dataOffset == 0
      ensures Payload() == data[from..from + size]
    {
      dataPtr, base, dataSize, dataOffset := data, from, size, 0;
    }

    predicate HasData(bytes: nat)
      reads this
    {
      dataOffset + bytes <= dataSize
    }

    method ReadUInt8() returns (v: nat)
      requires Valid()
      modifies this`dataOffset
      ensures Valid() && Read(v, dataOffset) == NextUInt8(Payload(), old(dataOffset))
    {
      if !HasData(1) {
        return 0;
      }
      v := Value(dataPtr[base + dataOffset]);
      dataOffset := dataOffset + 1;
    }

    method ReadUInt16() returns (v: nat)
      requires Valid()
      modifies this`dataOffset
      ensures Valid() && Read(v, dataOffset) == NextUInt16(Payload(), old(dataOffset))
    {
      if !HasData(2) {
        return 0;
      }
      v := Value16(dataPtr[base + dataOffset], dataPtr[base + dataOffset + 1]);
      dataOffset := dataOffset + 2;
    }

    method ReadInt16() returns (v: int)
      requires Valid()
      modifies this`dataOffset
      ensures Valid()
      ensures var r := NextUInt16(Payload(), old(dataOffset)); v == Signed(r.value, 0x1_0000) && dataOffset == r.offset
    {
      var u := ReadUInt16();
      v := Signed(u, 0x1_0000);
    }

    method ReadUInt32() returns (v: nat)
      requires Valid()
      modifies this`dataOffset
      ensures Valid() && Read(v, dataOffset) == NextUInt32(Payload(), old(dataOffset))
    {
      if !HasData(4) {
        return 0;
      }
      var at := base + dataOffset;
      v := Value32(dataPtr[at], dataPtr[at + 1], dataPtr[at + 2], dataPtr[at + 3]);
      dataOffset := dataOffset + 4;
    }

    method ReadInt32() returns (v: int)
      requires Valid()
      modifies this`dataOffset
      ensures Valid()
      ensures var r := NextUInt32(Payload(), old(dataOffset)); v == Signed(r.value, 0x1_0000_0000) && dataOffset == r.offset
    {
      var u := ReadUInt32();
      v := Signed(u, 0x1_0000_0000);
    }

    method ReadString() returns (s: string)
      requires Valid()
      modifies this`dataOffset
      ensures Valid() && Read(s, dataOffset) == NextString(Payload(), old(dataOffset))
    {
      hide Value, Value16, Characters;
      if !HasData(2) {
        return "";
      }
      var at := base + dataOffset;
      var length := Value16(dataPtr[at], dataPtr[at + 1]);
      dataOffset := dataOffset + 2;
      if !HasData(length) || length > MAX_STRING {
        return "";
      }
      s := TakeCharacters(length);
      dataOffset := dataOffset + length;
    }

    /** The characters under the cursor, which stays. */
    method TakeCharacters(length: nat) returns (s: string)
      requires Valid() && dataOffset + length <= dataSize
      ensures s == Characters(Payload()[dataOffset..dataOffset + length])
    {
      hide Character;
      ghost var p := Payload();
      s := "";
      for i := 0 to length
        invariant |s| == i && forall k :: 0 <= k < i ==> s[k] == Character(p[dataOffset + k])
      {
        s := s + [Character(dataPtr[base + dataOffset + i])];
      }
    }

    method ReadStringArray() returns (ss: seq<string>)
      requires Valid()
      modifies this`dataOffset
      ensures Valid() && Read(ss, dataOffset) == NextStringArray(Payload(), old(dataOffset))
    {
      var count := ReadUInt8();
      ghost var start := dataOffset;
      ss := [];
      for i := 0 to count
        invariant Valid() && Payload() == old(Payload())
        invariant Read(ss, dataOffset) == NextStrings(Payload(), start, i)
      {
        var s := ReadString();
        ss := ss + [s];
      }
    }
  }

  /** Any one of the reader's operations. */
  datatype ReadOp = UInt8 | UInt16 | Int16 | UInt32 | Int32 | String | StringArray

  function OffsetAfter(p: seq<Byte>, offset: nat, op: ReadOp): nat
    requires offset <= |p|
  {
    match op
    case UInt8 => NextUInt8(p, offset).offset
    case UInt16 | Int16 => NextUInt16(p, offset).offset
    case UInt32 | Int32 => NextUInt32(p, offset).offset
    case String => NextString(p, offset).offset
    case StringArray => NextStringArray(p, offset).offset
  }

  /** No sequence of reads, on any payload, moves the cursor backwards or past the end. */
  function OffsetAfterAll(p: seq<Byte>, offset: nat, ops: seq<ReadOp>): (end: nat)
    requires offset <= |p|
    ensures offset <= end <= |p|
    decreases ops
  {
    if ops == [] then offset
    else OffsetAfterAll(p, OffsetAfter(p, offset, ops[0]), ops[1..])
  }
}
