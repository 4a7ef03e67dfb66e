/** What an update stores: the image byte by byte, whether written at once or in chunks, and nothing else. */
module UpdateBytes {
  import opened Bytes
  import opened Flash
  import opened BootInfo
  import opened BootSystem
  import Ota

  /** Partition q holds the image from its start, and erased bytes behind it. */
  ghost predicate HoldsImage(m: Memory, q: App, image: seq<Byte>) {
    && |image| <= APP_SIZE
    && (forall i :: 0 <= i < |image| ==> m[StartOf(q) + i] == image[i])
    && (forall i :: StartOf(q) + |image| <= i < EndOf(q) ==> m[i] == 0xFF)
  }

  /** The two memories agree outside partition q and the sector of the boot record. */
  ghost predicate SameElsewhere(m: Memory, m': Memory, q: App) {
    forall i ::
      (0 <= i < TOTAL_SIZE && !(StartOf(q) <= i < EndOf(q)) && !(DATA_START <= i < DATA_START + SECTOR_SIZE)) ==>
        m'[i] == m[i]
  }

  // ---- The whole image at once ----

  lemma PartitionErased(m: Memory, p: Protection, q: App) returns (m': Memory)
    requires EraseRangeError(p, StartOf(q), EndOf(q)) == Ok
    ensures m' == Final(m, EraseLog(m, p, StartOf(q), EndOf(q)))
    ensures SameOutside(m, m', StartOf(q), EndOf(q)) && forall i :: StartOf(q) <= i < EndOf(q) ==> m'[i] == 0xFF
  {
    var log := EraseLog(m, p, StartOf(q), EndOf(q));
    m' := Final(m, log);
    if log != [] { EraseLogConfined(m, p, StartOf(q), EndOf(q), |log| - 1); }
    forall i | StartOf(q) <= i < EndOf(q) ensures m'[i] == 0xFF { EraseLogErases(m, p, StartOf(q), EndOf(q), i); }
  }

  lemma ImageWritten(m: Memory, p: Protection, q: App, image: seq<Byte>, log: seq<Memory>) returns (m': Memory)
    requires |image| <= APP_SIZE && Ota.WriteImage(m, p, q, image) == (log, Ota.OK)
    ensures m' == Final(m, log) && HoldsImage(m', q, image) && SameOutside(m, m', StartOf(q), EndOf(q))
  {
    var start, end := StartOf(q), SectorOf(StartOf(q) + SizeOf(q) + SECTOR_SIZE - 1);
    assert SectorOf(start) == start && end == EndOf(q);
    var erased := PartitionErased(m, p, q);
    m' := Program(erased, start, image);
  }

  /** A record update changes no byte outside its sector. */
  lemma PendElsewhere(m: Memory, p: Protection, o: Ota.State, target: Word)
    ensures SameOutside(m, Final(m, Ota.Pend(m, p, o, target).log), DATA_START, DATA_START + SECTOR_SIZE)
  {
    var info := Ota.Pend(m, p, o, target).state.info;
    TornIsInvalid(m);
    SavedConfined(m, OtaWords(info));
  }

  lemma UpdateLog(s: System, image: seq<Byte>) returns (log: seq<Memory>, m: Memory, m': Memory)
    requires s.On? && s.ota.initialized && s.ota.update < PARTITION_MAX
    requires Effect(s, StartUpdate(image)).error == Ota.OK
    ensures |image| <= APP_SIZE && Ota.WriteImage(s.mem, s.protection, s.ota.update, image) == (log, Ota.OK)
    ensures m == Final(s.mem, log) && m' == Next(s, Do(StartUpdate(image))).mem
    ensures SameOutside(m, m', DATA_START, DATA_START + SECTOR_SIZE)
  {
    var o, q := s.ota, s.ota.update;
    log := Ota.WriteImage(s.mem, s.protection, q, image).0;
    m := Final(s.mem, log);
    var e := Ota.Pend(m, s.protection, o.(progress := Ota.Verifying), q);
    PendElsewhere(m, s.protection, o.(progress := Ota.Verifying), q);
    Completed(s, StartUpdate(image), Effect(s, StartUpdate(image)));
    m' := Final(m, e.log);
    FinalOfTwo(s.mem, log, e.log);
  }

  lemma FinalOfTwo(m: Memory, a: seq<Memory>, b: seq<Memory>)
    ensures Final(m, a + b) == Final(Final(m, a), b)
  {
  }

  lemma ImageSlice(m: Memory, q: App, image: seq<Byte>)
    requires HoldsImage(m, q, image)
    ensures m[StartOf(q)..StartOf(q) + |image|] == image
  {
  }

  lemma ImageThenRecord(m: Memory, m1: Memory, m': Memory, q: App, image: seq<Byte>)
    requires HoldsImage(m1, q, image) && SameOutside(m, m1, StartOf(q), EndOf(q))
    requires SameOutside(m1, m', DATA_START, DATA_START + SECTOR_SIZE)
    ensures HoldsImage(m', q, image) && SameElsewhere(m, m', q)
  {
  }

  /**
   * An update that returns OK leaves exactly the image in the other partition, the rest of that partition erased, and
   * every byte outside it and the record's sector as it was.
   */
  lemma UpdateStores(s: System, image: seq<Byte>, s1: System)
    requires Inv(s) && s.On? && s.ota.initialized && Effect(s, StartUpdate(image)).error == Ota.OK
    requires s1 == Next(s, Do(StartUpdate(image)))
    ensures HoldsImage(s1.mem, Other(s.app), image) && SameElsewhere(s.mem, s1.mem, Other(s.app))
    ensures s1.mem[StartOf(Other(s.app))..StartOf(Other(s.app)) + |image|] == image
  {
    var q := Other(s.app);
    var log, m, m' := UpdateLog(s, image);
    var m1 := ImageWritten(s.mem, s.protection, q, image, log);
    ImageThenRecord(s.mem, m, m', q, image);
    ImageSlice(m', q, image);
  }

  // ---- In chunks ----

  /** Data stored at an address, and nothing else changed. */
  ghost predicate Stored(m: Memory, m': Memory, at: nat, data: seq<Byte>) {
    && at + |data| <= TOTAL_SIZE && m'[at..at + |data|] == data
    && SameOutside(m, m', at, at + |data|)
  }

  lemma ProgramStores(m: Memory, at: nat, data: seq<Byte>, m': Memory)
    requires at + |data| <= TOTAL_SIZE && m' == Program(m, at, data)
    ensures Stored(m, m', at, data)
  {
  }

  lemma ChunkEffect(m: Memory, p: Protection, o: Ota.State, q: App, data: seq<Byte>, offset: Word)
    returns (e: Ota.Effect, m': Memory)
    requires o.update == q && offset + |data| < 0x1_0000_0000
    requires Ota.WriteChunk(m, p, o, data, offset).error == Ota.OK
    ensures e == Ota.WriteChunk(m, p, o, data, offset) && e.log == [m'] && e.state == o
    ensures offset + |data| <= APP_SIZE && m' == Program(m, StartOf(q) + offset, data)
  {
    e := Ota.WriteChunk(m, p, o, data, offset);
    m' := e.log[0];
  }

  lemma ChunkPlaced(s: System, data: seq<Byte>, offset: Word, s1: System) returns (at: nat)
    requires Inv(s) && s.On? && s.ota.initialized && offset + |data| < 0x1_0000_0000
    requires Effect(s, WriteChunk(data, offset)).error == Ota.OK && s1 == Next(s, Do(WriteChunk(data, offset)))
    ensures at == StartOf(Other(s.app)) + offset && offset + |data| <= APP_SIZE
    ensures s1 == s.(mem := Program(s.mem, at, data))
  {
    var q := Other(s.app);
    var e, m' := ChunkEffect(s.mem, s.protection, s.ota, q, data, offset);
    Completed(s, WriteChunk(data, offset), e);
    at := StartOf(q) + offset;
  }

  /** A chunk that does not wrap is stored at its offset in the other partition, and nothing else changes. */
  lemma ChunkStores(s: System, data: seq<Byte>, offset: Word, s1: System) returns (at: nat)
    requires Inv(s) && s.On? && s.ota.initialized && offset + |data| < 0x1_0000_0000
    requires Effect(s, WriteChunk(data, offset)).error == Ota.OK && s1 == Next(s, Do(WriteChunk(data, offset)))
    ensures at == StartOf(Other(s.app)) + offset && at + |data| <= EndOf(Other(s.app))
    ensures s1 == s.(mem := s1.mem) && Stored(s.mem, s1.mem, at, data)
  {
    at := ChunkPlaced(s, data, offset, s1);
    var m, m' := s.mem, s1.mem;
    assert Stored(m, m', at, data) by { ProgramStores(m, at, data, m'); }
  }

  function Join(pieces: seq<seq<Byte>>): seq<Byte> { if pieces == [] then [] else pieces[0] + Join(pieces[1..]) }

  /** One call for each piece, at consecutive offsets. */
  function Download(pieces: seq<seq<Byte>>, offset: nat): seq<Event>
    requires offset + |Join(pieces)| < 0x1_0000_0000
  {
    if pieces == [] then []
    else [Do(WriteChunk(pieces[0], offset))] + Download(pieces[1..], offset + |pieces[0]|)
  }

  /** Every call returns OK. */
  predicate AllAccepted(s: System, pieces: seq<seq<Byte>>, offset: nat)
    requires offset + |Join(pieces)| < 0x1_0000_0000
    decreases |pieces|
  {
    pieces == [] || (
      && s.On? && s.ota.update < PARTITION_MAX && Effect(s, WriteChunk(pieces[0], offset)).error == Ota.OK
      && AllAccepted(Next(s, Do(WriteChunk(pieces[0], offset))), pieces[1..], offset + |pieces[0]|))
  }

  lemma ProgramTwice(m: Memory, at: nat, a: seq<Byte>, b: seq<Byte>)
    requires at + |a| + |b| <= TOTAL_SIZE
    ensures Program(Program(m, at, a), at + |a|, b) == Program(m, at, a + b)
  {
  }

  /** An initialised library about to be given these pieces, from this offset on, all of which it will accept. */
  ghost predicate Downloading(s: System, pieces: seq<seq<Byte>>, offset: nat) {
    && Inv(s) && s.On? && s.ota.initialized && offset <= APP_SIZE && offset + |Join(pieces)| < 0x1_0000_0000
    && AllAccepted(s, pieces, offset)
  }

  lemma DownloadStep(s: System, pieces: seq<seq<Byte>>, offset: nat)
    returns (s1: System, rest: seq<seq<Byte>>, next: nat)
    requires Downloading(s, pieces, offset) && pieces != []
    ensures rest == pieces[1..] && next == offset + |pieces[0]| && Downloading(s1, rest, next)
    ensures s1 == s.(mem := Program(s.mem, StartOf(Other(s.app)) + offset, pieces[0]))
    ensures Run(s, Download(pieces, offset)) == Run(s1, Download(rest, next))
  {
    var e := Do(WriteChunk(pieces[0], offset));
    s1, rest, next := Next(s, e), pieces[1..], offset + |pieces[0]|;
    var _ := ChunkPlaced(s, pieces[0], offset, s1);
    NextKeepsInv(s, e);
    RunStep(s, s1, e, Download(rest, next));
  }

  /** What a download leaves. */
  ghost predicate Left(s: System, pieces: seq<seq<Byte>>, offset: nat, s': System) {
    && s.On? && offset + |Join(pieces)| <= APP_SIZE
    && s' == s.(mem := Program(s.mem, StartOf(Other(s.app)) + offset, Join(pieces)))
  }

  lemma NothingLeft(s: System, offset: nat)
    requires s.On? && offset <= APP_SIZE
    ensures Left(s, [], offset, s)
  {
    assert Program(s.mem, StartOf(Other(s.app)) + offset, []) == s.mem;
  }

  lemma MoreLeft(s: System, pieces: seq<seq<Byte>>, offset: nat, s1: System, s': System)
    requires s.On? && pieces != [] && offset + |pieces[0]| <= APP_SIZE
    requires s1 == s.(mem := Program(s.mem, StartOf(Other(s.app)) + offset, pieces[0]))
    requires Left(s1, pieces[1..], offset + |pieces[0]|, s')
    ensures Left(s, pieces, offset, s')
  {
    ProgramTwice(s.mem, StartOf(Other(s.app)) + offset, pieces[0], Join(pieces[1..]));
  }

  lemma {:induction false} Downloaded(s: System, pieces: seq<seq<Byte>>, offset: nat, s': System)
    requires Downloading(s, pieces, offset) && s' == Run(s, Download(pieces, offset))
    ensures Left(s, pieces, offset, s')
    decreases |pieces|
  {
    if pieces == [] {
      NothingLeft(s, offset);
    } else {
      var s1, rest, next := DownloadStep(s, pieces, offset);
      Downloaded(s1, rest, next, s');
      MoreLeft(s, pieces, offset, s1, s');
    }
  }

  /** Chunks at consecutive offsets, all accepted, put their concatenation into the other partition and no more. */
  lemma ChunksAssemble(s: System, pieces: seq<seq<Byte>>, offset: nat)
    requires Downloading(s, pieces, offset)
    ensures Stored(s.mem, Run(s, Download(pieces, offset)).mem, StartOf(Other(s.app)) + offset, Join(pieces))
  {
    var s' := Run(s, Download(pieces, offset));
    Downloaded(s, pieces, offset, s');
    ProgramStores(s.mem, StartOf(Other(s.app)) + offset, Join(pieces), s'.mem);
  }
}
