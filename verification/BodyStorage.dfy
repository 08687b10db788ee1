/** Request bodies that can be read several times, kept in memory or in a file. */
module BodyStorage {
  import opened Basics
  import opened Bytes

  datatype Reply =
    | Data(bytes: seq<Byte>)     // read without an error
    | Eof
    | Position(at: int)          // where a seek ended
    | BadSeek                    // unknown whence or a negative position
    | Reader(content: seq<Byte>) // a new reader, positioned at the start
    | Done
    | StorageClosed

  /** What both storages are meant to be: bytes, a cursor, an end of life. */
  datatype File = File(content: seq<Byte>, cursor: nat, closed: bool)

  datatype Medium = Memory | Disk

  /** bytes.Reader reports the end of the data before it looks at the buffer,
      os.File returns early from a read into an empty buffer. */
  function ReadReply(content: seq<Byte>, cursor: nat, n: nat, medium: Medium): Reply {
    if medium.Disk? && n == 0 then Data([])
    else if cursor >= |content| then Eof
    else Data(content[cursor..Min(cursor + n, |content|)])
  }

  function ReadCursor(content: seq<Byte>, cursor: nat, n: nat): nat {
    if cursor >= |content| then cursor else Min(cursor + n, |content|)
  }

  /** What the system does with a seek in a file: what is asked for, a refusal, say of a position
      beyond the limit of the file system, or, for a whence of its own, something else. */
  datatype System = Complies | Refuses | MovesTo(at: nat)

  /** Where a seek leads; below zero it is refused. */
  function SeekTarget(size: nat, cursor: nat, offset: int, whence: int, system: System, medium: Medium): int {
    if whence !in {0, 1, 2} then
      if medium.Disk? && system.MovesTo? then system.at else -1
    else if medium.Disk? && system.Refuses? then -1
    else if whence == 0 then offset else if whence == 1 then cursor + offset else size + offset
  }

  // ------------------------------------------------------------- the two implementations

  /** A reader handed out for a replay: its own cursor over the same bytes. */
  class BodyReader {
    const content: seq<Byte>
    const medium: Medium
    var pos: nat

    constructor (content: seq<Byte>, medium: Medium)
      ensures this.content == content && this.medium == medium && pos == 0
    {
      this.content, this.medium, pos := content, medium, 0;
    }

    method Read(n: nat) returns (r: Reply)
      modifies this
      ensures r == ReadReply(content, old(pos), n, medium) && pos == ReadCursor(content, old(pos), n)
    {
      if medium.Disk? && n == 0 {
        return Data([]);
      }
      if pos >= |content| {
        return Eof;
      }
      var end := Min(pos + n, |content|);
      r := Data(content[pos..end]);
      pos := end;
    }
  }

  class MemoryStorage {
    const data: seq<Byte>
    const reader: BodyReader
    var closed: bool

    constructor (data: seq<Byte>)
      ensures Valid() && fresh(reader) && View() == File(data, 0, false)
    {
      this.data, closed := data, false;
      reader := new BodyReader(data, Memory);
    }

    ghost predicate Valid() { reader.content == data && reader.medium == Memory }

    function View(): File
      reads this, reader
    {
      File(data, reader.pos, closed)
    }

    method Read(n: nat) returns (r: Reply)
      requires Valid()
      modifies reader
      ensures (View(), r) == Performed(old(View()), Memory, ReadOp(n))
    {
      if closed {
        return StorageClosed;
      }
      r := reader.Read(n);
    }

    method Seek(offset: int, whence: int, ghost system: System) returns (r: Reply)
      requires Valid()
      modifies reader
      ensures (View(), r) == Performed(old(View()), Memory, SeekOp(offset, whence, system))
    {
      if closed {
        return StorageClosed;
      }
      var abs := -1;
      if whence == 0 {
        abs := offset;
      } else if whence == 1 {
        abs := reader.pos + offset;
      } else if whence == 2 {
        abs := |data| + offset;
      }
      if abs < 0 {
        return BadSeek;
      }
      reader.pos := abs;
      return Position(abs);
    }

    method Close() returns (r: Reply)
      requires Valid()
      modifies this`closed
      ensures (View(), r) == Performed(old(View()), Memory, CloseOp)
    {
      if !closed {
        closed := true;
      }
      return Done;
    }

    method AllBytes() returns (r: Reply)
      requires Valid()
      ensures (View(), r) == Performed(View(), Memory, BytesOp)
    {
      if closed {
        return StorageClosed;
      }
      return Data(data);
    }

    method NewReader() returns (r: Reply, replay: BodyReader?)
      requires Valid()
      ensures (View(), r) == Performed(View(), Memory, NewReaderOp)
      ensures replay != null <==> !closed
      ensures replay != null ==> fresh(replay) && replay.content == data && replay.pos == 0
    {
      if closed {
        return StorageClosed, null;
      }
      replay := new BodyReader(data, Memory);
      r := Reader(data);
    }
  }

  /** The file behind a disk storage is written once; afterwards only the offset
      of the descriptor moves, and the name may be unlinked. */
  class DiskStorage {
    const file: BodyReader
    const size: nat
    var linked: bool
    var closed: bool

    constructor (data: seq<Byte>)
      ensures Valid() && fresh(file) && View() == File(data, 0, false)
    {
      size, closed, linked := |data|, false, true;
      file := new BodyReader(data, Disk);
    }

    ghost predicate Valid()
      reads this
    {
      file.medium == Disk && size == |file.content| && linked == !closed
    }

    function View(): File
      reads this, file
    {
      File(file.content, file.pos, closed)
    }

    method FileSeek(offset: int, whence: int, system: System) returns (pos: int)
      requires Valid()
      modifies file
      ensures var target := SeekTarget(size, old(file.pos), offset, whence, system, Disk);
              pos == if target < 0 then -1 else target
      ensures file.pos == if pos < 0 then old(file.pos) else pos
    {
      var target := -1;
      if whence == 0 {
        target := offset;
      } else if whence == 1 {
        target := file.pos + offset;
      } else if whence == 2 {
        target := size + offset;
      } else if system.MovesTo? {
        target := system.at;
      }
      if system.Refuses? {
        return -1;
      }
      if target < 0 {
        return -1;
      }
      file.pos := target;
      return target;
    }

    method Read(n: nat) returns (r: Reply)
      requires Valid()
      modifies file
      ensures (View(), r) == Performed(old(View()), Disk, ReadOp(n))
    {
      if closed {
        return StorageClosed;
      }
      r := file.Read(n);
    }

    method Seek(offset: int, whence: int, system: System) returns (r: Reply)
      requires Valid()
      modifies file
      ensures (View(), r) == Performed(old(View()), Disk, SeekOp(offset, whence, system))
    {
      if closed {
        return StorageClosed;
      }
      var pos := FileSeek(offset, whence, system);
      return if pos < 0 then BadSeek else Position(pos);
    }

    method Close() returns (r: Reply)
      requires Valid()
      modifies this`closed, this`linked
      ensures Valid() && (View(), r) == Performed(old(View()), Disk, CloseOp)
    {
      if !closed {
        closed := true;
        linked := false;
      }
      return Done;
    }

    /** Remember the offset, read everything from the start, and go back. */
    method AllBytes() returns (r: Reply)
      requires Valid()
      modifies file
      ensures (View(), r) == Performed(old(View()), Disk, BytesOp)
    {
      if closed {
        return StorageClosed;
      }
      var current := FileSeek(0, 1, Complies);
      var start := FileSeek(0, 0, Complies);
      var data := [];
      if size > 0 {
        r := file.Read(size);
        assert file.content[0..size] == file.content;
        data := r.bytes;
      }
      var back := FileSeek(current, 0, Complies);
      return Data(data);
    }

    method NewReader() returns (r: Reply, replay: BodyReader?)
      requires Valid()
      ensures (View(), r) == Performed(View(), Disk, NewReaderOp)
      ensures replay != null <==> !closed
      ensures replay != null ==> fresh(replay) && replay.content == file.content && replay.pos == 0
    {
      if closed {
        return StorageClosed, null;
      }
      replay := new BodyReader(file.content, Disk);
      r := Reader(file.content);
    }
  }

  // ------------------------------------------------------------- one object, two implementations

  datatype Op = ReadOp(n: nat) | SeekOp(offset: int, whence: int, system: System) | BytesOp | NewReaderOp | CloseOp

  function Performed(f: File, medium: Medium, op: Op): (File, Reply) {
    if op.CloseOp? then (f.(closed := true), Done)
    else if f.closed then (f, StorageClosed)
    else match op
      case ReadOp(n) => (f.(cursor := ReadCursor(f.content, f.cursor, n)), ReadReply(f.content, f.cursor, n, medium))
      case SeekOp(offset, whence, system) =>
        var target := SeekTarget(|f.content|, f.cursor, offset, whence, system, medium);
        if target < 0 then (f, BadSeek) else (f.(cursor := target), Position(target))
      case BytesOp => (f, Data(f.content))
      case NewReaderOp => (f, Reader(f.content))
      case CloseOp => (f, Done)
  }

  /** A storage together with the readers handed out so far, by their cursors. */
  datatype World = World(file: File, readers: seq<nat>)

  datatype Call = OnStorage(op: Op) | ReadFrom(reader: nat, n: nat)

  function Called(w: World, medium: Medium, call: Call): (World, Reply) {
    match call
    case OnStorage(op) =>
      var (file, reply) := Performed(w.file, medium, op);
      (World(file, if reply.Reader? then w.readers + [0] else w.readers), reply)
    case ReadFrom(k, n) =>
      if k >= |w.readers| then (w, Done)
      else (w.(readers := w.readers[k := ReadCursor(w.file.content, w.readers[k], n)]),
            ReadReply(w.file.content, w.readers[k], n, medium))
  }

  function After(w: World, medium: Medium, calls: seq<Call>): World {
    if calls == [] then w else Called(After(w, medium, calls[..|calls| - 1]), medium, calls[|calls| - 1]).0
  }

  function Replies(w: World, medium: Medium, calls: seq<Call>): (r: seq<Reply>)
    ensures |r| == |calls|
  {
    if calls == [] then []
    else Replies(w, medium, calls[..|calls| - 1])
         + [Called(After(w, medium, calls[..|calls| - 1]), medium, calls[|calls| - 1]).1]
  }

  /** The calls that tell the media apart: a read into an empty buffer when nothing is left to
      read, a seek that memory grants and the system refuses, and a seek with an unknown whence
      that the system supports. */
  predicate TellsApart(w: World, call: Call) {
    match call
    case OnStorage(op) =>
      !w.file.closed &&
      ((op.ReadOp? && op.n == 0 && w.file.cursor >= |w.file.content|)
       || (op.SeekOp? && op.whence !in {0, 1, 2} && op.system.MovesTo?)
       || (op.SeekOp? && op.whence in {0, 1, 2} && op.system.Refuses?
           && SeekTarget(|w.file.content|, w.file.cursor, op.offset, op.whence, Complies, Memory) >= 0))
    case ReadFrom(k, n) => n == 0 && k < |w.readers| && w.readers[k] >= |w.file.content|
  }

  predicate NeverTellsApart(w: World, calls: seq<Call>) {
    calls == [] ||
    (NeverTellsApart(w, calls[..|calls| - 1]) && !TellsApart(After(w, Memory, calls[..|calls| - 1]), calls[|calls| - 1]))
  }

  lemma CallsAgree(w: World, call: Call)
    ensures Called(w, Memory, call).1 == Called(w, Disk, call).1 <==> !TellsApart(w, call)
    ensures !TellsApart(w, call) ==> Called(w, Memory, call).0 == Called(w, Disk, call).0
  {
    match call
    case OnStorage(op) =>
      if op.ReadOp? && !w.file.closed {
        ReadsAgree(w.file.content, w.file.cursor, op.n);
      }
    case ReadFrom(k, n) =>
      if k < |w.readers| {
        ReadsAgree(w.file.content, w.readers[k], n);
      }
  }

  lemma ReadsAgree(content: seq<Byte>, cursor: nat, n: nat)
    ensures ReadReply(content, cursor, n, Memory) == ReadReply(content, cursor, n, Disk) <==> !(n == 0 && cursor >= |content|)
  {
    if n == 0 && cursor < |content| {
      assert content[cursor..cursor] == [];
    }
  }

  /** Two storages, one in memory and one on disk, give the same replies to a sequence of calls
      exactly when no call of it tells them apart, and then they end in the same state. */
  lemma {:induction false} MediaAgreeWhen(w: World, calls: seq<Call>)
    ensures Replies(w, Memory, calls) == Replies(w, Disk, calls) <==> NeverTellsApart(w, calls)
    ensures NeverTellsApart(w, calls) ==> After(w, Memory, calls) == After(w, Disk, calls)
    decreases |calls|
  {
    hide Called;
    hide TellsApart;
    if calls != [] {
      var before, call := calls[..|calls| - 1], calls[|calls| - 1];
      MediaAgreeWhen(w, before);
      CallsAgree(After(w, Memory, before), call);
      LastDecides(Replies(w, Memory, before), Called(After(w, Memory, before), Memory, call).1,
                  Replies(w, Disk, before), Called(After(w, Disk, before), Disk, call).1);
    }
  }

  lemma LastDecides(a: seq<Reply>, x: Reply, b: seq<Reply>, y: Reply)
    requires |a| == |b|
    ensures a + [x] == b + [y] <==> a == b && x == y
  {
    if a + [x] == b + [y] {
      assert a == (a + [x])[..|a|] == (b + [y])[..|b|] == b;
      assert x == (a + [x])[|a|] == (b + [y])[|b|] == y;
    }
  }

  /** The condition cannot be dropped: on an empty body a read into an empty buffer is an
      end of file in memory and succeeds on disk. */
  lemma EmptyReadTellsThemApart()
    ensures var start, calls := World(File([], 0, false), []), [OnStorage(ReadOp(0))];
            Replies(start, Memory, calls) == [Eof] && Replies(start, Disk, calls) == [Data([])]
  {
    var start, calls := World(File([], 0, false), []), [OnStorage(ReadOp(0))];
    assert calls[..0] == [];
    assert Replies(start, Memory, []) == [] && Replies(start, Disk, []) == [];
  }

  /** Nor can the second part: a system that can look for data succeeds where memory refuses. */
  lemma UnknownWhenceTellsThemApart()
    ensures var start, calls := World(File([7], 0, false), []), [OnStorage(SeekOp(0, 3, MovesTo(0)))];
            Replies(start, Memory, calls) == [BadSeek] && Replies(start, Disk, calls) == [Position(0)]
  {
    var start, calls := World(File([7], 0, false), []), [OnStorage(SeekOp(0, 3, MovesTo(0)))];
    assert calls[..0] == [];
    assert Replies(start, Memory, []) == [] && Replies(start, Disk, []) == [];
  }

  /** Nor can the third: memory goes where a file system does not. */
  lemma FarSeekTellsThemApart(far: nat)
    ensures var start, calls := World(File([7], 0, false), []), [OnStorage(SeekOp(far, 0, Refuses))];
            Replies(start, Memory, calls) == [Position(far)] && Replies(start, Disk, calls) == [BadSeek]
  {
    var start, calls := World(File([7], 0, false), []), [OnStorage(SeekOp(far, 0, Refuses))];
    assert calls[..0] == [];
    assert Replies(start, Memory, []) == [] && Replies(start, Disk, []) == [];
  }

  /** The three ways of addressing a position reach the same bytes, in memory and in a file,
      and nothing but the cursor moves. */
  lemma SeekAddresses(f: File, medium: Medium, k: nat, n: nat)
    requires !f.closed && n > 0
    ensures var there := f.(cursor := k);
      && Performed(f, medium, SeekOp(k, 0, Complies)) == (there, Position(k))
      && Performed(f, medium, SeekOp(k - f.cursor, 1, Complies)) == (there, Position(k))
      && Performed(f, medium, SeekOp(k - |f.content|, 2, Complies)) == (there, Position(k))
      && Performed(there, medium, ReadOp(n)).1
         == (if k >= |f.content| then Eof else if k + n <= |f.content| then Data(f.content[k..k + n]) else Data(f.content[k..]))
  {
  }

  // ------------------------------------------------------------- what a reader has seen

  function Seen(reply: Reply): seq<Byte> { if reply.Data? then reply.bytes else [] }

  /** Everything the k-th reader returned over a run. */
  function SeenBy(w: World, medium: Medium, calls: seq<Call>, k: nat): seq<Byte> {
    if calls == [] then []
    else
      var before, call := calls[..|calls| - 1], calls[|calls| - 1];
      SeenBy(w, medium, before, k)
      + (if call.ReadFrom? && call.reader == k then Seen(Called(After(w, medium, before), medium, call).1) else [])
  }

  /** How many bytes the k-th reader was asked for since it was handed out. */
  function AskedOf(w: World, medium: Medium, calls: seq<Call>, k: nat): nat {
    if calls == [] then 0
    else
      var before, call := calls[..|calls| - 1], calls[|calls| - 1];
      AskedOf(w, medium, before, k)
      + (if call.ReadFrom? && call.reader == k && k < |After(w, medium, before).readers| then call.n else 0)
  }

  predicate Replayed(content: seq<Byte>, w: World, k: nat, seen: seq<Byte>, asked: nat) {
    && w.file.content == content
    && seen == content[..Min(asked, |content|)]
    && (if k < |w.readers| then w.readers[k] == |seen| else asked == 0)
  }

  lemma ReadReplays(content: seq<Byte>, cursor: nat, n: nat, asked: nat, medium: Medium)
    requires cursor == Min(asked, |content|)
    ensures ReadCursor(content, cursor, n) == Min(asked + n, |content|)
    ensures content[..cursor] + Seen(ReadReply(content, cursor, n, medium)) == content[..Min(asked + n, |content|)]
  {
    if n > 0 && cursor < |content| {
      assert content[..cursor] + content[cursor..Min(cursor + n, |content|)] == content[..Min(cursor + n, |content|)];
    }
  }

  lemma PerformedKeepsContent(f: File, medium: Medium, op: Op)
    ensures Performed(f, medium, op).0.content == f.content
  {
  }

  lemma CallReplays(content: seq<Byte>, w: World, medium: Medium, call: Call, k: nat, seen: seq<Byte>, asked: nat)
    requires Replayed(content, w, k, seen, asked)
    ensures Replayed(content, Called(w, medium, call).0, k,
                     seen + (if call.ReadFrom? && call.reader == k then Seen(Called(w, medium, call).1) else []),
                     asked + (if call.ReadFrom? && call.reader == k && k < |w.readers| then call.n else 0))
  {
    hide Performed, ReadReply, ReadCursor;
    assert seen + [] == seen;
    match call
    case OnStorage(op) =>
      PerformedKeepsContent(w.file, medium, op);
    case ReadFrom(reader, n) =>
      if reader == k < |w.readers| {
        ReadReplays(content, w.readers[k], n, asked, medium);
      }
  }

  /** However the calls interleave, and whether or not the storage is closed meanwhile,
      a reader returns the stored bytes from the start, as far as it was asked. */
  lemma {:induction false} ReaderReplays(content: seq<Byte>, medium: Medium, calls: seq<Call>, k: nat)
    ensures var start := World(File(content, 0, false), []);
            && SeenBy(start, medium, calls, k) == content[..Min(AskedOf(start, medium, calls, k), |content|)]
            && Replayed(content, After(start, medium, calls), k, SeenBy(start, medium, calls, k), AskedOf(start, medium, calls, k))
    decreases |calls|
  {
    hide Called;
    var start := World(File(content, 0, false), []);
    if calls != [] {
      var before := calls[..|calls| - 1];
      ReaderReplays(content, medium, before, k);
      CallReplays(content, After(start, medium, before), medium, calls[|calls| - 1], k,
                  SeenBy(start, medium, before, k), AskedOf(start, medium, before, k));
    }
  }

  // ------------------------------------------------------------- creation

  const MAX_INT64: int := 0x7FFF_FFFF_FFFF_FFFF

  /** Two's complement addition of one on 64 bits. */
  function Successor(n: int): int { if n == MAX_INT64 then -MAX_INT64 - 1 else n + 1 }

  /** What io.LimitReader lets through of a source. */
  function Limited(source: seq<Byte>, limit: int): seq<Byte> {
    if limit <= 0 then [] else source[..Min(limit, |source|)]
  }

  datatype Outcome = Stored(medium: Medium) | TooLarge | DiskFailed

  datatype Gauges = Gauges(diskFiles: int, diskUsage: int, memoryBuffers: int, memoryUsage: int, diskHits: int, memoryHits: int)

  function Counted(g: Gauges, medium: Medium, size: nat): Gauges {
    if medium.Disk? then g.(diskFiles := g.diskFiles + 1, diskUsage := g.diskUsage + size)
    else g.(memoryBuffers := g.memoryBuffers + 1, memoryUsage := g.memoryUsage + size)
  }

  function Hit(g: Gauges, medium: Medium): Gauges {
    if medium.Disk? then g.(diskHits := g.diskHits + 1) else g.(memoryHits := g.memoryHits + 1)
  }

  /** What creation promises: the whole body, or a refusal when it is too long. */
  predicate KeepsPromise(source: seq<Byte>, maxBytes: int, outcome: Outcome, content: seq<Byte>) {
    if |source| <= maxBytes then outcome.Stored? && content == source else outcome == TooLarge
  }

  lemma LimitKeepsPromise(source: seq<Byte>, maxBytes: int)
    requires -MAX_INT64 - 1 <= maxBytes <= MAX_INT64
    ensures var taken := Limited(source, Successor(maxBytes));
            (if |source| <= maxBytes then |taken| <= maxBytes && taken == source else |taken| > maxBytes)
            <==> (maxBytes < 0x7FFF_FFFF_FFFF_FFFF || source == [])
  {
    if 0 <= |source| <= maxBytes < MAX_INT64 {
      assert source[..|source|] == source;
    }
  }

  class BodyCache {
    var enabled: bool
    var threshold: int
    var maxSize: int
    var gauges: Gauges

    constructor (enabled: bool, threshold: int, maxSize: int)
      ensures gauges == Gauges(0, 0, 0, 0, 0, 0)
      ensures this.enabled == enabled && this.threshold == threshold && this.maxSize == maxSize
    {
      this.enabled, this.threshold, this.maxSize := enabled, threshold, maxSize;
      gauges := Gauges(0, 0, 0, 0, 0, 0);
    }

    predicate Available(size: int)
      reads this
    {
      enabled && gauges.diskUsage + size <= maxSize
    }

    /** diskFails says whether the file could not be created or written. */
    method CreateBodyStorage(data: seq<Byte>, diskFails: bool) returns (medium: Medium, memory: MemoryStorage?, disk: DiskStorage?)
      modifies this`gauges
      ensures medium.Disk? <==> enabled && |data| >= threshold && old(gauges.diskUsage) + |data| <= maxSize && !diskFails
      ensures gauges == Counted(old(gauges), medium, |data|)
      ensures Holds(medium, memory, disk, data)
      ensures memory != null ==> fresh(memory) && fresh(memory.reader)
      ensures disk != null ==> fresh(disk) && fresh(disk.file)
    {
      memory, disk, medium := null, null, Memory;
      if enabled && |data| >= threshold && Available(|data|) && !diskFails {
        medium := Disk;
        disk := new DiskStorage(data);
      } else {
        memory := new MemoryStorage(data);
      }
      gauges := Counted(gauges, medium, |data|);
    }

    static ghost predicate Holds(medium: Medium, memory: MemoryStorage?, disk: DiskStorage?, data: seq<Byte>)
      reads if memory != null then {memory, memory.reader} else {}
      reads if disk != null then {disk, disk.file} else {}
    {
      && (medium.Memory? ==> memory != null && disk == null && memory.Valid() && memory.View() == File(data, 0, false))
      && (medium.Disk? ==> memory == null && disk != null && disk.Valid() && disk.View() == File(data, 0, false))
    }

    /** Both ways in: straight to a file when the announced length asks for it, otherwise
        through memory. The content is complete or refused unless the limit wraps around. */
    method CreateBodyStorageFromReader(source: seq<Byte>, contentLength: int, maxBytes: int, diskFails: bool)
      returns (outcome: Outcome, memory: MemoryStorage?, disk: DiskStorage?, ghost content: seq<Byte>)
      requires -MAX_INT64 - 1 <= maxBytes <= MAX_INT64
      modifies this`gauges
      ensures var usage := old(gauges.diskUsage);
        var streamed := enabled && contentLength > 0 && contentLength >= threshold && usage + contentLength <= maxSize;
        && (outcome.DiskFailed? <==> streamed && diskFails)
        && (outcome.Stored? ==> (outcome.medium.Disk? <==>
              streamed || (enabled && |content| >= threshold && usage + |content| <= maxSize && !diskFails)))
      ensures !outcome.DiskFailed? ==>
                (KeepsPromise(source, maxBytes, outcome, content) <==> maxBytes < 0x7FFF_FFFF_FFFF_FFFF || source == [])
      ensures outcome.Stored? ==> Holds(outcome.medium, memory, disk, content)
      ensures !outcome.Stored? ==> gauges == old(gauges)
      ensures outcome == Stored(Disk) ==> var g := old(gauges);
        gauges == Gauges(g.diskFiles + 1, g.diskUsage + |content|, g.memoryBuffers, g.memoryUsage, g.diskHits + 1, g.memoryHits)
      ensures outcome == Stored(Memory) ==> var g := old(gauges);
        gauges == Gauges(g.diskFiles, g.diskUsage, g.memoryBuffers + 1, g.memoryUsage + |content|, g.diskHits, g.memoryHits + 1)
    {
      memory, disk := null, null;
      content := Limited(source, Successor(maxBytes));
      LimitKeepsPromise(source, maxBytes);
      var taken := Limited(source, Successor(maxBytes));
      if enabled && contentLength > 0 && contentLength >= threshold && Available(contentLength) {
        if diskFails {
          return DiskFailed, memory, disk, content;
        }
        if |taken| > maxBytes {
          return TooLarge, memory, disk, content;
        }
        disk := new DiskStorage(taken);
        gauges := Hit(Counted(gauges, Disk, |taken|), Disk);
        return Stored(Disk), memory, disk, content;
      }
      if |taken| > maxBytes {
        return TooLarge, memory, disk, content;
      }
      var medium;
      medium, memory, disk := CreateBodyStorage(taken, diskFails);
      gauges := Hit(gauges, medium);
      return Stored(medium), memory, disk, content;
    }
  }
}
