/** The driver's code-integrity monitor (crc.c, ProcessGuard.c): one pass records a
    checksum for every 256-byte chunk of a process's code sections, a second pass
    recomputes and compares them. Target memory is a map from addresses to the
    bytes that can be read there. */
module CodeIntegrity {
  import opened Common
  import opened Words
  import opened Crc32

  const CHUNK: nat := 256
  const MAX_PROCESSES: nat := 10

  type Memory = map<nat, Byte>
  type ULong = n: nat | n < U32

  datatype Section = Section(address: nat, size: ULong)
  datatype Process = Process(memory: Memory, imageBase: nat, sections: seq<Section>)
  datatype Record = Record(pid: nat, codeSize: ULong, chunkCount: ULong, hashValues: seq<Word>,
                           sections: seq<Section>, isValid: bool)
  datatype Status = Success | LookupFailed | Unsuccessful | InsufficientResources | ReadFailed
                  | AlreadyRegistered
  // ---- Chunk arithmetic, in 32-bit unsigned integers ----

  function ChunkCount(size: ULong): ULong {
    ((size + CHUNK - 1) % U32) / CHUNK
  }

  function ChunkOffset(i: nat): ULong { (i * CHUNK) % U32 }

  function ChunkLength(size: ULong, i: nat): ULong {
    if (ChunkOffset(i) + CHUNK) % U32 > size then (size - ChunkOffset(i)) % U32 else CHUNK
  }

  /** The section sizes whose rounding up to whole chunks does not wrap around. */
  predicate Scannable(size: ULong) { size <= U32 - CHUNK }

  /** In a scannable section every byte lies in exactly the chunk its offset names, and no chunk
      reaches past the section; the last one ends it. */
  lemma ChunksTile(size: ULong, i: nat)
    requires Scannable(size) && i < ChunkCount(size)
    ensures ChunkOffset(i) == i * CHUNK < size
    ensures 1 <= ChunkLength(size, i) <= CHUNK
    ensures i * CHUNK + ChunkLength(size, i) == if i + 1 == ChunkCount(size) then size else (i + 1) * CHUNK
  {}

  lemma ByteInChunk(size: ULong, j: nat)
    requires Scannable(size) && j < size
    ensures j / CHUNK < ChunkCount(size)
    ensures j % CHUNK < ChunkLength(size, j / CHUNK)
  {
    ChunksTile(size, j / CHUNK);
  }

  /** A section is covered by its chunks if and only if its size does not wrap; one that wraps
      is not scanned at all. */
  lemma CoverageExact(size: ULong)
    ensures Scannable(size) <==> size <= 0xFFFF_FF00
    ensures Scannable(size) <==> forall j: nat :: j < size ==> j / 256 < ChunkCount(size)
    ensures ChunkCount(size) == if Scannable(size) then (size + 255) / 256 else 0
  {
    if Scannable(size) {
      forall j: nat | j < size ensures j / CHUNK < ChunkCount(size) {
        ByteInChunk(size, j);
      }
    } else {
      assert ChunkCount(size) == 0;
      assert !(0 / CHUNK < ChunkCount(size));
    }
  }

  // ---- What the two passes compute ----

  predicate Readable(mem: Memory, address: nat, size: nat) {
    address != 0 && size != 0 && forall a :: address <= a < address + size ==> a in mem
  }

  function Bytes(mem: Memory, address: nat, size: nat): (s: seq<Byte>)
    requires forall a :: address <= a < address + size ==> a in mem
    ensures |s| == size
  {
    seq(size, i requires 0 <= i < size => mem[address + i])
  }

  predicate ChunkReadable(mem: Memory, sec: Section, i: nat) {
    Readable(mem, sec.address + ChunkOffset(i), ChunkLength(sec.size, i))
  }

  function ChunkHash(mem: Memory, sec: Section, i: nat): Word
    requires ChunkReadable(mem, sec, i)
  {
    BitwiseCrc(Bytes(mem, sec.address + ChunkOffset(i), ChunkLength(sec.size, i)))
  }

  predicate SectionReadable(mem: Memory, sec: Section, n: nat) {
    forall i: nat :: i < n ==> ChunkReadable(mem, sec, i)
  }

  /** The checksums of the first n chunks of a section. */
  function SectionHashes(mem: Memory, sec: Section, n: nat): (hs: seq<Word>)
    requires SectionReadable(mem, sec, n)
    ensures |hs| == n
    ensures forall i: nat :: i < n ==> hs[i] == ChunkHash(mem, sec, i)
  {
    seq(n, i requires 0 <= i < n => ChunkHash(mem, sec, i))
  }

  predicate AllReadable(mem: Memory, secs: seq<Section>) {
    forall s: nat :: s < |secs| ==> SectionReadable(mem, secs[s], ChunkCount(secs[s].size))
  }

  function TotalChunks(secs: seq<Section>): nat {
    if secs == [] then 0
    else TotalChunks(secs[..|secs| - 1]) + ChunkCount(secs[|secs| - 1].size)
  }

  function TotalSize(secs: seq<Section>): nat {
    if secs == [] then 0 else TotalSize(secs[..|secs| - 1]) + secs[|secs| - 1].size
  }

  function AllHashes(mem: Memory, secs: seq<Section>): (hs: seq<Word>)
    requires AllReadable(mem, secs)
    ensures |hs| == TotalChunks(secs)
  {
    if secs == [] then []
    else
      var last := secs[|secs| - 1];
      AllHashes(mem, secs[..|secs| - 1]) + SectionHashes(mem, last, ChunkCount(last.size))
  }

  lemma {:induction false} HashAt(mem: Memory, secs: seq<Section>, s: nat, i: nat)
    requires AllReadable(mem, secs) && s < |secs| && i < ChunkCount(secs[s].size)
    ensures TotalChunks(secs[..s]) + i < TotalChunks(secs)
    ensures AllHashes(mem, secs)[TotalChunks(secs[..s]) + i] == ChunkHash(mem, secs[s], i)
  {
    hide ChunkHash, ChunkCount, ChunkReadable;
    if s + 1 < |secs| {
      HashAt(mem, secs[..|secs| - 1], s, i);
      assert secs[..|secs| - 1][..s] == secs[..s];
    }
  }

  lemma {:induction false} SameBytesSameHashes(mem: Memory, mem': Memory, secs: seq<Section>)
    requires AllReadable(mem, secs) && AllReadable(mem', secs)
    requires forall s: nat, i: nat :: s < |secs| && i < ChunkCount(secs[s].size) ==>
               ChunkHash(mem, secs[s], i) == ChunkHash(mem', secs[s], i)
    ensures AllHashes(mem, secs) == AllHashes(mem', secs)
  {
    hide ChunkHash, ChunkCount, ChunkReadable;
    if secs != [] {
      var front, last := secs[..|secs| - 1], secs[|secs| - 1];
      forall s: nat, i: nat | s < |front| && i < ChunkCount(front[s].size)
        ensures ChunkHash(mem, front[s], i) == ChunkHash(mem', front[s], i)
      {
        assert front[s] == secs[s];
      }
      SameBytesSameHashes(mem, mem', front);
      assert SectionHashes(mem, last, ChunkCount(last.size)) == SectionHashes(mem', last, ChunkCount(last.size));
    }
  }

  // ---- What the comparison decides ----

  lemma NonWrapping(size: ULong, i: nat)
    requires i < ChunkCount(size)
    ensures Scannable(size) && ChunkLength(size, i) <= CHUNK
  {
    CoverageExact(size);
    ChunksTile(size, i);
  }

  /** The verdict of a verification pass against recorded checksums. */
  ghost predicate Verifies(mem: Memory, secs: seq<Section>, recorded: seq<Word>) {
    AllReadable(mem, secs) && AllHashes(mem, secs) == recorded
  }

  ghost predicate SameIn(mem: Memory, mem': Memory, sec: Section) {
    forall a :: sec.address <= a < sec.address + sec.size ==> a in mem && a in mem' && mem[a] == mem'[a]
  }

  lemma SameChunk(mem: Memory, mem': Memory, sec: Section, i: nat)
    requires Scannable(sec.size) && i < ChunkCount(sec.size)
    requires ChunkReadable(mem, sec, i) && SameIn(mem, mem', sec)
    ensures ChunkReadable(mem', sec, i) && ChunkHash(mem', sec, i) == ChunkHash(mem, sec, i)
  {
    hide BitwiseCrc;
    ChunksTile(sec.size, i);
    var at, n := sec.address + i * CHUNK, ChunkLength(sec.size, i);
    assert Bytes(mem, at, n) == Bytes(mem', at, n);
  }

  /** Code that has not changed since it was recorded verifies, and only the sections that are scanned
      matter. */
  lemma UnchangedVerifies(mem: Memory, mem': Memory, secs: seq<Section>)
    requires AllReadable(mem, secs)
    requires forall s: nat :: s < |secs| && Scannable(secs[s].size) ==> SameIn(mem, mem', secs[s])
    ensures Verifies(mem', secs, AllHashes(mem, secs))
  {
    forall s: nat, i: nat | s < |secs| && i < ChunkCount(secs[s].size)
      ensures ChunkReadable(mem', secs[s], i) && ChunkHash(mem', secs[s], i) == ChunkHash(mem, secs[s], i)
    {
      NonWrapping(secs[s].size, i);
      assert SectionReadable(mem, secs[s], ChunkCount(secs[s].size));
      SameChunk(mem, mem', secs[s], i);
    }
    SameBytesSameHashes(mem, mem', secs);
  }

  /** mem' changes the section, and only inside the four bytes at address w. */
  ghost predicate TamperedWithinFour(mem: Memory, mem': Memory, sec: Section, w: nat) {
    var end := sec.address + sec.size;
    && (forall a :: sec.address <= a < end ==> a in mem && a in mem')
    && (forall a :: sec.address <= a < end && !(w <= a < w + 4) ==> mem[a] == mem'[a])
    && exists a :: sec.address <= a < end && mem[a] != mem'[a]
  }

  /** Tampering confined to four consecutive bytes of one section, on a chunk boundary or not,
      never verifies, whatever else changed in the other sections. */
  lemma TamperingCaught(mem: Memory, mem': Memory, secs: seq<Section>, s: nat, w: nat)
    requires AllReadable(mem, secs) && s < |secs| && Scannable(secs[s].size)
    requires TamperedWithinFour(mem, mem', secs[s], w)
    ensures !Verifies(mem', secs, AllHashes(mem, secs))
  {
    if AllReadable(mem', secs) {
      var sec := secs[s];
      var a :| sec.address <= a < sec.address + sec.size && mem[a] != mem'[a];
      var i := (a - sec.address) / CHUNK;
      ByteInChunk(sec.size, a - sec.address);
      assert SectionReadable(mem, sec, ChunkCount(sec.size)) && SectionReadable(mem', sec, ChunkCount(sec.size));
      assert ChunkReadable(mem, sec, i) && ChunkReadable(mem', sec, i);
      TamperedChunk(mem, mem', sec, w, i, a);
      HashAt(mem, secs, s, i);
      HashAt(mem', secs, s, i);
    }
  }

  /** When nothing else changed, such tampering is caught if and only if the section is scanned. */
  lemma TamperingCaughtExactly(mem: Memory, mem': Memory, secs: seq<Section>, s: nat, w: nat)
    requires AllReadable(mem, secs) && s < |secs| && TamperedWithinFour(mem, mem', secs[s], w)
    requires forall t: nat :: t < |secs| && t != s ==> SameIn(mem, mem', secs[t])
    ensures !Verifies(mem', secs, AllHashes(mem, secs)) <==> Scannable(secs[s].size)
  {
    hide Verifies;
    if Scannable(secs[s].size) {
      TamperingCaught(mem, mem', secs, s, w);
    } else {
      UnchangedVerifies(mem, mem', secs);
    }
  }

  lemma TamperedChunk(mem: Memory, mem': Memory, sec: Section, w: nat, i: nat, a: nat)
    requires Scannable(sec.size) && i < ChunkCount(sec.size)
    requires ChunkReadable(mem, sec, i) && ChunkReadable(mem', sec, i)
    requires TamperedWithinFour(mem, mem', sec, w)
    requires 0 <= a - sec.address - i * CHUNK < ChunkLength(sec.size, i)
    requires a in mem && a in mem' && mem[a] != mem'[a]
    ensures ChunkHash(mem, sec, i) != ChunkHash(mem', sec, i)
  {
    hide BitwiseCrc;
    ChunksTile(sec.size, i);
    var at, n := sec.address + i * CHUNK, ChunkLength(sec.size, i);
    var x, y := Bytes(mem, at, n), Bytes(mem', at, n);
    assert x[a - at] == mem[a] && y[a - at] == mem'[a];
    var k := if w <= at then 0 else w - at;
    forall m | 0 <= m < n && !(k <= m < k + 4) ensures x[m] == y[m] {
      assert mem[at + m] == mem'[at + m];
    }
    BurstDetected(x, y, k);
  }

  // ---- The two passes ----

  method ReadProcessMemory(mem: Memory, address: nat, buffer: array<Byte>, size: nat) returns (ok: bool)
    requires size <= buffer.Length
    modifies buffer
    ensures ok <==> address != 0 && size != 0 && forall a :: address <= a < address + size ==> a in mem
    ensures ok ==> buffer[..size] == Bytes(mem, address, size)
  {
    if address == 0 || size == 0 {
      return false;
    }
    ok := true;
    var i := 0;
    while i < size
      invariant i <= size && ok
      invariant forall a :: address <= a < address + i ==> a in mem
      invariant forall k :: 0 <= k < i ==> buffer[k] == mem[address + k]
    {
      if address + i !in mem {
        return false;
      }
      buffer[i] := mem[address + i];
      i := i + 1;
    }
    assert buffer[..size] == Bytes(mem, address, size);
  }

  method ZeroMemory(buffer: array<Byte>)
    modifies buffer
  {
    for i := 0 to buffer.Length {
      buffer[i] := 0;
    }
  }

  /** Reads one chunk into the buffer and checksums it. */
  method HashChunk(engine: Engine, mem: Memory, sec: Section, i: nat, buffer: array<Byte>)
    returns (hash: Option<Word>)
    requires engine.Valid() && buffer.Length == CHUNK
    requires i < ChunkCount(sec.size)
    modifies engine, engine.table, buffer
    ensures engine.Valid() && engine.table == old(engine.table)
    ensures hash.Some? <==> ChunkReadable(mem, sec, i)
    ensures hash.Some? ==> hash.value == ChunkHash(mem, sec, i)
  {
    var offset := ChunkOffset(i);
    var currentChunkSize := CHUNK;
    if (offset + CHUNK) % U32 > sec.size {
      currentChunkSize := (sec.size - offset) % U32;
    }
    NonWrapping(sec.size, i);
    ZeroMemory(buffer);
    var ok := ReadProcessMemory(mem, sec.address + offset, buffer, currentChunkSize);
    if !ok {
      return None;
    }
    var h := engine.Calculate(buffer, currentChunkSize);
    hash := Some(h);
  }

  /** A chunk index below the count never wraps an offset, wrapped section size or not. */
  lemma {:induction false} FrontHashes(mem: Memory, secs: seq<Section>, s: nat)
    requires s < |secs|
    ensures TotalChunks(secs[..s + 1]) == TotalChunks(secs[..s]) + ChunkCount(secs[s].size)
    ensures AllReadable(mem, secs[..s]) && SectionReadable(mem, secs[s], ChunkCount(secs[s].size)) ==>
              && AllReadable(mem, secs[..s + 1])
              && AllHashes(mem, secs[..s + 1])
                 == AllHashes(mem, secs[..s]) + SectionHashes(mem, secs[s], ChunkCount(secs[s].size))
  {
    hide ChunkHash, ChunkCount, ChunkReadable;
    assert secs[..s + 1][..s] == secs[..s];
  }

  lemma {:induction false} PrefixTotal(secs: seq<Section>, s: nat)
    requires s <= |secs|
    ensures TotalChunks(secs[..s]) <= TotalChunks(secs)
    ensures s < |secs| ==> TotalChunks(secs[..s]) + ChunkCount(secs[s].size) <= TotalChunks(secs)
    decreases |secs| - s
  {
    assert secs[..|secs|] == secs;
    if s < |secs| {
      assert secs[..s + 1][..s] == secs[..s];
      PrefixTotal(secs, s + 1);
    }
  }

  lemma WrappedSum(a: nat, b: nat)
    ensures (a % U32 + b) % U32 == (a + b) % U32
  {
    assert a == a / U32 * U32 + a % U32;
  }

  /** Two sections never have 2^32 chunks, so the 32-bit chunk total is the true one. */
  method SectionTotals(secs: seq<Section>) returns (totalChunkCount: ULong, codeSize: ULong)
    requires |secs| <= 2
    ensures totalChunkCount == TotalChunks(secs) && codeSize == TotalSize(secs) % U32
  {
    totalChunkCount, codeSize := 0, 0;
    for s := 0 to |secs|
      invariant totalChunkCount == TotalChunks(secs[..s]) <= s * 0x100_0000
      invariant codeSize == TotalSize(secs[..s]) % U32
    {
      assert secs[..s + 1][..s] == secs[..s];
      WrappedSum(TotalSize(secs[..s]), secs[s].size);
      totalChunkCount := (totalChunkCount + ChunkCount(secs[s].size)) % U32;
      codeSize := (codeSize + secs[s].size) % U32;
    }
    assert secs[..|secs|] == secs;
  }

  /** Checksums of every chunk of every section, in order; the first unreadable chunk ends the pass. */
  method RecordHashes(engine: Engine, mem: Memory, secs: seq<Section>, buffer: array<Byte>, hashValues: array<Word>)
    returns (ok: bool)
    requires engine.Valid() && buffer.Length == CHUNK
    requires hashValues.Length == TotalChunks(secs) && hashValues != engine.table
    modifies engine, engine.table, buffer, hashValues
    ensures engine.Valid() && engine.table == old(engine.table)
    ensures ok <==> AllReadable(mem, secs)
    ensures ok ==> hashValues[..] == AllHashes(mem, secs)
  {
    hide ChunkHash, ChunkCount, ChunkReadable;
    var hashIndex := 0;
    for s := 0 to |secs|
      invariant engine.Valid() && engine.table == old(engine.table)
      invariant hashIndex == TotalChunks(secs[..s]) <= hashValues.Length
      invariant AllReadable(mem, secs[..s])
      invariant hashValues[..hashIndex] == AllHashes(mem, secs[..s])
    {
      var chunkCount := ChunkCount(secs[s].size);
      PrefixTotal(secs, s);
      for i := 0 to chunkCount
        invariant engine.Valid() && engine.table == old(engine.table)
        invariant hashIndex == TotalChunks(secs[..s]) + i <= hashValues.Length
        invariant AllReadable(mem, secs[..s]) && SectionReadable(mem, secs[s], i)
        invariant hashValues[..hashIndex] == AllHashes(mem, secs[..s]) + SectionHashes(mem, secs[s], i)
      {
        var hash := HashChunk(engine, mem, secs[s], i, buffer);
        if hash.None? {
          return false;
        }
        hashValues[hashIndex] := hash.value;
        hashIndex := hashIndex + 1;
        assert hashValues[..hashIndex] == hashValues[..hashIndex - 1] + [hash.value];
        assert SectionHashes(mem, secs[s], i + 1) == SectionHashes(mem, secs[s], i) + [hash.value];
      }
      FrontHashes(mem, secs, s);
    }
    assert secs[..|secs|] == secs;
    ok := true;
  }

  lemma Differs(mem: Memory, secs: seq<Section>, recorded: seq<Word>, s: nat, i: nat)
    requires s < |secs| && i < ChunkCount(secs[s].size) && ChunkReadable(mem, secs[s], i)
    requires TotalChunks(secs[..s]) + i < |recorded| && recorded[TotalChunks(secs[..s]) + i] != ChunkHash(mem, secs[s], i)
    ensures !Verifies(mem, secs, recorded)
  {
    hide ChunkHash, ChunkCount, ChunkReadable;
    if AllReadable(mem, secs) {
      HashAt(mem, secs, s, i);
    }
  }

  /** Compares every chunk with its recorded checksum; the first difference ends the pass. */
  method CompareHashes(engine: Engine, mem: Memory, secs: seq<Section>, buffer: array<Byte>, recorded: seq<Word>)
    returns (result: bool)
    requires engine.Valid() && buffer.Length == CHUNK
    requires |recorded| == TotalChunks(secs)
    modifies engine, engine.table, buffer
    ensures engine.Valid() && engine.table == old(engine.table)
    ensures result <==> Verifies(mem, secs, recorded)
  {
    hide ChunkHash, ChunkCount, ChunkReadable;
    var hashIndex := 0;
    for s := 0 to |secs|
      invariant engine.Valid() && engine.table == old(engine.table)
      invariant hashIndex == TotalChunks(secs[..s]) <= |recorded|
      invariant AllReadable(mem, secs[..s])
      invariant recorded[..hashIndex] == AllHashes(mem, secs[..s])
    {
      var chunkCount := ChunkCount(secs[s].size);
      PrefixTotal(secs, s);
      for i := 0 to chunkCount
        invariant engine.Valid() && engine.table == old(engine.table)
        invariant hashIndex == TotalChunks(secs[..s]) + i <= |recorded|
        invariant AllReadable(mem, secs[..s]) && SectionReadable(mem, secs[s], i)
        invariant recorded[..hashIndex] == AllHashes(mem, secs[..s]) + SectionHashes(mem, secs[s], i)
      {
        var hash := HashChunk(engine, mem, secs[s], i, buffer);
        if hash.None? {
          return false;
        }
        if hash.value != recorded[hashIndex] {
          Differs(mem, secs, recorded, s, i);
          return false;
        }
        hashIndex := hashIndex + 1;
        assert recorded[..hashIndex] == recorded[..hashIndex - 1] + [hash.value];
        assert SectionHashes(mem, secs[s], i + 1) == SectionHashes(mem, secs[s], i) + [hash.value];
      }
      FrontHashes(mem, secs, s);
    }
    assert secs[..|secs|] == secs;
    assert recorded[..hashIndex] == recorded;
    result := true;
  }

  // ---- The driver's tables ----

  /** The process can be recorded: it is found with its image and sections, memory suffices, and every
      chunk can be read. */
  ghost predicate Recordable(process: Option<Process>, hashesAllocated: bool, bufferAllocated: bool) {
    && process.Some? && process.value.imageBase != 0 && process.value.sections != []
    && hashesAllocated && bufferAllocated && AllReadable(process.value.memory, process.value.sections)
  }

  /** A record of exactly what the process's code is. */
  ghost predicate Records(r: Record, pid: nat, process: Process) {
    && AllReadable(process.memory, process.sections)
    && r.pid == pid && r.isValid && r.codeSize == TotalSize(process.sections) % U32 && r.sections == process.sections
    && r.chunkCount == TotalChunks(process.sections) && r.hashValues == AllHashes(process.memory, process.sections)
  }

  /** g_process_code_hash with its count, and g_Process_Protected with its count. */
  class Guard {
    const engine: Engine
    var records: array<Record>
    var recordCount: nat
    var protectedIds: array<nat>
    var protectedCount: nat

    /** What every record of a monitored process promises the verification pass. */
    ghost predicate RecordValid(r: Record) {
      r.isValid ==> |r.sections| <= 2 && |r.hashValues| == r.chunkCount == TotalChunks(r.sections)
    }

    ghost predicate Valid()
      reads this, engine, engine.table, records, protectedIds
    {
      && engine.Valid()
      && engine.table as object != records && engine.table as object != protectedIds && records as object != protectedIds
      && records.Length == MAX_PROCESSES == protectedIds.Length
      && recordCount <= protectedCount <= MAX_PROCESSES
      && (forall i :: 0 <= i < MAX_PROCESSES ==> RecordValid(records[i]))
      && (forall i, j :: 0 <= i < j < protectedCount ==> protectedIds[i] != protectedIds[j])
    }

    constructor ()
      ensures Valid() && protectedCount == 0 == recordCount
      ensures fresh(engine) && fresh(engine.table) && fresh(records) && fresh(protectedIds)
    {
      engine := new Engine();
      records := new Record[MAX_PROCESSES](i => Record(0, 0, 0, [], [], false));
      protectedIds := new nat[MAX_PROCESSES](i => 0);
      recordCount, protectedCount := 0, 0;
    }

    /** Records a process; on any failure only the pid of the next free slot may have been written. */
    method AddCrc(pid: nat, process: Option<Process>, hashesAllocated: bool, bufferAllocated: bool)
      returns (status: Status)
      requires Valid() && recordCount < MAX_PROCESSES
      requires process.Some? ==> |process.value.sections| <= 2
      modifies this`recordCount, engine, engine.table, records
      ensures engine.Valid() && engine.table == old(engine.table)
      ensures forall i :: 0 <= i < MAX_PROCESSES && i != old(recordCount) ==> records[i] == old(records[i])
      ensures RecordValid(records[old(recordCount)])
      ensures status.Success? <==>
                && process.Some? && process.value.imageBase != 0 && process.value.sections != []
                && hashesAllocated && bufferAllocated && AllReadable(process.value.memory, process.value.sections)
      ensures recordCount == if status.Success? then old(recordCount) + 1 else old(recordCount)
      ensures status.Success? ==> Records(records[old(recordCount)], pid, process.value)
      ensures !status.Success? ==>
                records[recordCount] == old(records[recordCount])
                || records[recordCount] == old(records[recordCount]).(pid := pid)
    {
      if process.None? {
        return LookupFailed;
      }
      var p := process.value;
      if p.imageBase == 0 || p.sections == [] {
        return Unsuccessful;
      }
      var totalChunkCount, codeSize := SectionTotals(p.sections);
      if !hashesAllocated {
        return InsufficientResources;
      }
      var hashValues := new Word[totalChunkCount](i => 0);
      records[recordCount] := records[recordCount].(pid := pid);
      if !bufferAllocated {
        return InsufficientResources;
      }
      var codeBuffer := new Byte[CHUNK](i => 0);
      var ok := RecordHashes(engine, p.memory, p.sections, codeBuffer, hashValues);
      if !ok {
        return ReadFailed;
      }
      records[recordCount] := Record(pid, codeSize, totalChunkCount, hashValues[..], p.sections, true);
      recordCount := recordCount + 1;
      status := Success;
    }

    /** The verdict on one record: exactly whether its process still verifies against it. */
    method ComputeProcessCodeHash(r: Record, process: Option<Process>, bufferAllocated: bool) returns (result: bool)
      requires Valid() && RecordValid(r) && r.isValid
      modifies engine, engine.table
      ensures Valid()
      ensures result <==> process.Some? && bufferAllocated && Verifies(process.value.memory, r.sections, r.hashValues)
    {
      if process.None? || !bufferAllocated {
        return false;
      }
      var codeBuffer := new Byte[CHUNK](i => 0);
      result := CompareHashes(engine, process.value.memory, r.sections, codeBuffer, r.hashValues);
    }

    /** A process is registered at most once and at most ten are; the number of hash records stays
        within the number of registrations, so AddCrc always has a free slot. */
    method AddProtectedProcess(pid: nat, process: Option<Process>, hashesAllocated: bool, bufferAllocated: bool)
      returns (status: Status)
      requires Valid()
      requires process.Some? ==> |process.value.sections| <= 2
      modifies this, engine, engine.table, records, protectedIds
      ensures Valid() && records == old(records) && protectedIds == old(protectedIds)
      ensures status ==
                if pid in old(protectedIds[..protectedCount]) then AlreadyRegistered
                else if old(protectedCount) == 10 then InsufficientResources
                else if process.None? then LookupFailed
                else Success
      ensures protectedIds[..protectedCount]
           == if status.Success? then old(protectedIds[..protectedCount]) + [pid] else old(protectedIds[..protectedCount])
      ensures var recorded := status.Success? && Recordable(process, hashesAllocated, bufferAllocated);
              && recordCount == (if recorded then old(recordCount) + 1 else old(recordCount))
              && (recorded ==> Records(records[old(recordCount)], pid, process.value))
              && (!recorded && status.Success? ==>
                    records[recordCount] == old(records[recordCount])
                    || records[recordCount] == old(records[recordCount]).(pid := pid))
      ensures forall i :: 0 <= i < MAX_PROCESSES && (status.Success? ==> i != old(recordCount)) ==> records[i] == old(records[i])
    {
      hide AllReadable, AllHashes, TotalSize, TotalChunks;
      for i := 0 to protectedCount
        invariant pid !in protectedIds[..i]
      {
        if protectedIds[i] == pid {
          return AlreadyRegistered;
        }
      }
      if protectedCount >= MAX_PROCESSES {
        return InsufficientResources;
      }
      if process.None? {
        return LookupFailed;
      }
      protectedIds[protectedCount] := pid;
      protectedCount := protectedCount + 1;
      var _ := AddCrc(pid, process, hashesAllocated, bufferAllocated);
      status := Success;
    }
  }
}
