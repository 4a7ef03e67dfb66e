/** The OTA update library: image download into the spare partition and the boot record it maintains. */
module Ota {
  import opened Bytes
  import opened Flash
  import opened BootInfo
  import Crc32

  datatype Error = OK | InvalidArgument | NotInitialized | FlashError | NoSpace | InvalidImage

  datatype Progress = Idle | Writing | Verifying | Complete | Failed

  /** The library's state in RAM. */
  datatype State = State(initialized: bool, running: Word, update: Word, info: OtaInfo, progress: Progress)

  /** Static storage before `ota_init`. */
  const Zeroed := State(false, 0, 0, OtaInfo(Common(0, 0, 0, 0, 0, false, false, 0), 0), Idle)

  /** What a call does: its new RAM state, the contents flash goes through, and the code it returns. */
  datatype Effect = Effect(state: State, log: seq<Memory>, error: Error)

  function ImageError(image: seq<Byte>): Error
    requires |image| >= HEADER_SIZE
  {
    var size := GetWord(image, IMAGE_SIZE_OFFSET);
    if GetWord(image, 0) != IMAGE_MAGIC then InvalidImage
    else if size == 0 || size > APP_SIZE then InvalidImage
    else OK
  }

  function Header(m: Memory, p: Word): (h: seq<Byte>)
    requires p < PARTITION_MAX
    ensures |h| == HEADER_SIZE
  {
    m[StartOf(p)..StartOf(p) + HEADER_SIZE]
  }

  /** The checksum covers the record up to the checksum field itself. */
  function Checksummed(i: OtaInfo): OtaInfo {
    i.(crc := Crc32.Crc(Layout(CommonWords(i.common))))
  }

  /** The checksum that is saved is the CRC-32 of the 24 bytes in front of it in flash. */
  lemma SavedChecksum(m: Memory, i: OtaInfo)
    ensures var m' := Saved(m, OtaWords(Checksummed(i)));
            GetWord(m', DATA_START + 24) == Crc32.Crc(m'[DATA_START..DATA_START + 24])
  {
    var info := Checksummed(i);
    var m' := Saved(m, OtaWords(info));
    SavedWord(m, OtaWords(info), 6);
    LayoutJoin(CommonWords(info.common), [info.crc]);
    assert m'[DATA_START..DATA_START + 24] == Layout(OtaWords(info))[..24];
  }

  function SaveInfo(m: Memory, p: Protection, s: State): Effect {
    var info := Checksummed(s.info);
    var s' := s.(info := info);
    if EraseError(p, DATA_START) != Ok then Effect(s', [], FlashError)
    else if WriteError(p, DATA_START, 28) != Ok then Effect(s', [Torn(m)], FlashError)
    else Effect(s', [Torn(m), Saved(m, OtaWords(info))], OK)
  }

  function Init(m: Memory, p: Protection, s: State): Effect {
    if s.initialized then Effect(s, [], OK)
    else
      var e := if LoadOta(m).common.magic == BOOT_MAGIC then Effect(s.(info := LoadOta(m)), [], OK)
               else SaveInfo(m, p, s.(info := OtaInfo(DefaultCommon, 0)));
      if e.error != OK then e
      else
        var active := e.state.info.common.active;
        e.(state := State(true, active, Other(active), e.state.info, Idle))
  }

  function Pend(m: Memory, p: Protection, s: State, target: Word): Effect {
    SaveInfo(m, p, s.(info := s.info.(common := s.info.common.(pending := target, confirmed := false))))
  }

  /** Erases the partition, programs the image and checks the header it reads back. */
  function WriteImage(m: Memory, p: Protection, partition: Word, image: seq<Byte>): (seq<Memory>, Error)
    requires partition < PARTITION_MAX
  {
    var start, end := StartOf(partition), SectorOf(StartOf(partition) + SizeOf(partition) + SECTOR_SIZE - 1);
    var erased := EraseLog(m, p, SectorOf(start), end);
    if EraseRangeError(p, SectorOf(start), end) != Ok then (erased, FlashError)
    else if WriteError(p, start, |image|) != Ok then (erased, FlashError)
    else
      var m' := Program(Final(m, erased), start, image);
      (erased + [m'], ImageError(Header(m', partition)))
  }

  /** The argument checks of an update, apart from initialisation. */
  predicate HasImage(image: seq<Byte>) {
    HEADER_SIZE <= |image| <= APP_SIZE && ImageError(image) == OK
  }

  function StartUpdate(m: Memory, p: Protection, s: State, image: seq<Byte>): Effect
    requires s.update < PARTITION_MAX
  {
    if !s.initialized || |image| == 0 then Effect(s, [], InvalidArgument)
    else if |image| > APP_SIZE then Effect(s, [], NoSpace)
    else if !HasImage(image) then Effect(s.(progress := Failed), [], InvalidImage)
    else
      var (log, err) := WriteImage(m, p, s.update, image);
      if err != OK then Effect(s.(progress := Failed), log, err)
      else
        var e := Pend(Final(m, log), p, s.(progress := Verifying), s.update);
        Effect(e.state.(progress := Complete), log + e.log, OK)
  }

  /** The bounds test and the address use 32-bit additions. */
  function WriteChunk(m: Memory, p: Protection, s: State, data: seq<Byte>, offset: Word): Effect
    requires s.update < PARTITION_MAX
  {
    var address := (StartOf(s.update) + offset) % 0x1_0000_0000;
    if !s.initialized then Effect(s, [], InvalidArgument)
    else if (offset + |data|) % 0x1_0000_0000 > SizeOf(s.update) then Effect(s, [], NoSpace)
    else if WriteError(p, address, |data|) != Ok then Effect(s, [], FlashError)
    else Effect(s, [Program(m, address, data)], OK)
  }

  function SetBootPartition(m: Memory, p: Protection, s: State, target: Word): Effect {
    if target >= PARTITION_MAX then Effect(s, [], InvalidArgument) else Pend(m, p, s, target)
  }

  function Finalize(m: Memory, p: Protection, s: State): Effect {
    if !s.initialized then Effect(s, [], NotInitialized)
    else if s.progress != Complete then Effect(s, [], InvalidArgument)
    else SetBootPartition(m, p, s, s.update)
  }

  function Abort(s: State): Effect {
    if !s.initialized then Effect(s, [], NotInitialized) else Effect(s.(progress := Idle), [], OK)
  }

  function Rollback(m: Memory, p: Protection, s: State): Effect {
    if !s.initialized then Effect(s, [], NotInitialized)
    else
      var to := Other(s.running);
      var c := s.info.common;
      SaveInfo(m, p, s.(info := s.info.(common :=
        c.(active := to, pending := to, confirmed := true, rollbackCount := Increment(c.rollbackCount))))).(error := OK)
  }

  function Confirm(m: Memory, p: Protection, s: State): Effect {
    if !s.initialized then Effect(s, [], NotInitialized)
    else SaveInfo(m, p, s.(info := s.info.(common := s.info.common.(confirmed := true, active := s.running))))
  }

  /** The addresses a chunk write programs lie in the spare partition exactly when offset + size does not wrap. */
  lemma ChunkConfined(m: Memory, p: Protection, s: State, data: seq<Byte>, offset: Word)
    requires s.update == APP_A || s.update == APP_B
    requires |data| < 0x1_0000_0000 && WriteChunk(m, p, s, data, offset).error == OK
    ensures var address := (StartOf(s.update) + offset) % 0x1_0000_0000;
            (StartOf(s.update) <= address && address + |data| <= EndOf(s.update)) <==> offset + |data| < 0x1_0000_0000
  {
  }

  /** A wrapping chunk write into the spare partition B can destroy the header of the running image in A. */
  lemma WrappedChunkOverwrites(m: Memory, s: State)
    requires s.initialized && s.update == APP_B && Verifies(m, APP_A)
    ensures var e := WriteChunk(m, Unprotected, s, seq(APP_SIZE, _ => 0), 0x1_0000_0000 - 0x3C000);
            e.error == OK && !Verifies(Final(m, e.log), APP_A)
  {
    var e := WriteChunk(m, Unprotected, s, seq(APP_SIZE, _ => 0), 0x1_0000_0000 - 0x3C000);
    assert e.log == [Program(m, 0x4000, seq(APP_SIZE, _ => 0))];
    assert Final(m, e.log)[0x4000] == 0;
  }

  /** No partition is near the end of the address space. */
  lemma PartitionEnd(p: Word)
    requires p < PARTITION_MAX
    ensures EndSector(StartOf(p), SizeOf(p)) == SectorOf(StartOf(p) + SizeOf(p) + SECTOR_SIZE - 1)
  {
  }

  lemma SlicesJoin(m: Memory, a: nat, b: nat, c: nat)
    requires a <= b <= c <= TOTAL_SIZE
    ensures m[a..b] + m[b..c] == m[a..c]
  {
  }

  /** The class the calls are methods of: the library's statics over one flash device. */
  class Library {
    const dev: Device
    const table: Crc32.Table
    var state: State

    ghost predicate Valid()
      reads this, dev, table, table.entry
    {
      dev.Valid() && table.Valid() && table.entry as object != dev.mem as object
    }

    /** The library and its device went from (m, s, before) through effect e. */
    ghost predicate Did(m: Memory, before: seq<Memory>, e: Effect)
      reads this, dev, dev.mem, table, table.entry
    {
      Valid() && state == e.state && dev.log == before + e.log && dev.Contents() == Final(m, e.log)
    }

    constructor (device: Device, crc: Crc32.Table)
      requires device.Valid() && crc.Valid() && crc.entry as object != device.mem as object
      ensures Valid() && dev == device && table == crc && state == Zeroed
    {
      dev, table, state := device, crc, Zeroed;
    }

    /** Brings the record's own checksum up to date. */
    method Recompute()
      requires Valid()
      modifies this`state, table, table.entry
      ensures Valid() && state == old(state).(info := Checksummed(old(state).info))
    {
      var crc := table.Calculate(Layout(CommonWords(state.info.common)));
      state := state.(info := state.info.(crc := crc));
    }

    /** Erases the boot data sector and writes the record. */
    method WriteRecord() returns (err: Error)
      requires Valid()
      modifies dev.mem, dev`log
      ensures var m, p := old(dev.Contents()), dev.protection;
              var log := if EraseError(p, DATA_START) != Ok then []
                         else if WriteError(p, DATA_START, 28) != Ok then [Torn(m)]
                         else [Torn(m), Saved(m, OtaWords(state.info))];
              && Valid() && err == (if |log| == 2 then OK else FlashError)
              && dev.log == old(dev.log) + log && dev.Contents() == Final(m, log)
    {
      var flashErr := dev.EraseSector(DATA_START);
      if flashErr != Ok { return FlashError; }
      flashErr := dev.Write(DATA_START, Layout(OtaWords(state.info)));
      if flashErr != Ok { return FlashError; }
      return OK;
    }

    method Save() returns (err: Error)
      requires Valid()
      modifies this`state, dev.mem, dev`log, table, table.entry
      ensures var e := SaveInfo(old(dev.Contents()), dev.protection, old(state));
              Did(old(dev.Contents()), old(dev.log), e) && err == e.error
    {
      Recompute();
      err := WriteRecord();
    }

    method OtaInit() returns (err: Error)
      requires Valid()
      modifies this`state, dev.mem, dev`log, table, table.entry
      ensures var e := Init(old(dev.Contents()), dev.protection, old(state));
              Did(old(dev.Contents()), old(dev.log), e) && err == e.error
    {
      if state.initialized { return OK; }
      state := state.(info := LoadOta(dev.mem[..]));
      if state.info.common.magic != BOOT_MAGIC {
        state := state.(info := OtaInfo(DefaultCommon, 0));
        err := Save();
        if err != OK { return; }
      }
      var running := state.info.common.active;
      state := State(true, running, if running == APP_A then APP_B else APP_A, state.info, Idle);
      err := OK;
    }

    method MarkPending(target: Word) returns (err: Error)
      requires Valid()
      modifies this`state, dev.mem, dev`log, table, table.entry
      ensures var e := Pend(old(dev.Contents()), dev.protection, old(state), target);
              Did(old(dev.Contents()), old(dev.log), e) && err == e.error
    {
      state := state.(info := state.info.(common := state.info.common.(pending := target, confirmed := false)));
      err := Save();
    }

    method OtaSetBootPartition(target: Word) returns (err: Error)
      requires Valid()
      modifies this`state, dev.mem, dev`log, table, table.entry
      ensures var e := SetBootPartition(old(dev.Contents()), dev.protection, old(state), target);
              Did(old(dev.Contents()), old(dev.log), e) && err == e.error
    {
      if target >= PARTITION_MAX { return InvalidArgument; }
      err := MarkPending(target);
    }

    method WriteAndVerify(image: seq<Byte>) returns (err: Error)
      requires Valid() && state.update < PARTITION_MAX
      modifies dev.mem, dev`log
      ensures Valid()
      ensures var w := WriteImage(old(dev.Contents()), dev.protection, state.update, image);
              err == w.1 && dev.log == old(dev.log) + w.0 && dev.Contents() == Final(old(dev.Contents()), w.0)
    {
      var start := StartOf(state.update);
      ghost var end := SectorOf(start + SizeOf(state.update) + SECTOR_SIZE - 1);
      assert EndSector(start, SizeOf(state.update)) == end by { PartitionEnd(state.update); }
      ghost var before, erased := dev.log, EraseLog(dev.Contents(), dev.protection, SectorOf(start), end);
      var flashErr := dev.EraseRange(start, SizeOf(state.update));
      if flashErr != Ok { return FlashError; }
      flashErr := dev.Write(start, image);
      if flashErr != Ok { return FlashError; }
      assert before + erased + [dev.Contents()] == before + (erased + [dev.Contents()]);
      err := ImageError(Header(dev.mem[..], state.update));
    }

    method OtaStartUpdateFromBuffer(image: seq<Byte>) returns (err: Error)
      requires Valid() && state.update < PARTITION_MAX
      modifies this`state, dev.mem, dev`log, table, table.entry
      ensures var e := StartUpdate(old(dev.Contents()), dev.protection, old(state), image);
              Did(old(dev.Contents()), old(dev.log), e) && err == e.error
    {
      if !state.initialized || |image| == 0 { return InvalidArgument; }
      if |image| > APP_SIZE { return NoSpace; }
      if |image| < HEADER_SIZE {
        state := state.(progress := Failed);
        return InvalidImage;
      }
      err := ImageError(image);
      if err != OK {
        state := state.(progress := Failed);
        return;
      }
      err := WriteAndMark(image);
    }

    /** The part of an update that touches flash. */
    method WriteAndMark(image: seq<Byte>) returns (err: Error)
      requires Valid() && state.update < PARTITION_MAX && state.initialized
      requires HasImage(image)
      modifies this`state, dev.mem, dev`log, table, table.entry
      ensures var e := StartUpdate(old(dev.Contents()), dev.protection, old(state), image);
              Did(old(dev.Contents()), old(dev.log), e) && err == e.error
    {
      ghost var before, m0, p, s := dev.log, dev.Contents(), dev.protection, state;
      ghost var w := WriteImage(m0, p, s.update, image);
      state := state.(progress := Writing);
      err := WriteAndVerify(image);
      if err != OK {
        state := state.(progress := Failed);
        return;
      }
      state := state.(progress := Verifying);
      ghost var e := Pend(Final(m0, w.0), p, state, s.update);
      assert before + w.0 + e.log == before + (w.0 + e.log);
      var _ := MarkPending(state.update);
      state := state.(progress := Complete);
      err := OK;
    }

    method OtaWriteChunk(data: seq<Byte>, offset: Word) returns (err: Error)
      requires Valid() && state.update < PARTITION_MAX
      modifies dev.mem, dev`log
      ensures var e := WriteChunk(old(dev.Contents()), dev.protection, old(state), data, offset);
              Did(old(dev.Contents()), old(dev.log), e) && err == e.error
    {
      if !state.initialized { return InvalidArgument; }
      if (offset + |data|) % 0x1_0000_0000 > SizeOf(state.update) { return NoSpace; }
      var flashErr := dev.Write((StartOf(state.update) + offset) % 0x1_0000_0000, data);
      if flashErr != Ok { return FlashError; }
      err := OK;
    }

    method OtaFinalizeUpdate() returns (err: Error)
      requires Valid()
      modifies this`state, dev.mem, dev`log, table, table.entry
      ensures var e := Finalize(old(dev.Contents()), dev.protection, old(state));
              Did(old(dev.Contents()), old(dev.log), e) && err == e.error
    {
      if !state.initialized { return NotInitialized; }
      if state.progress != Complete { return InvalidArgument; }
      err := OtaSetBootPartition(state.update);
    }

    method OtaRollback() returns (err: Error)
      requires Valid()
      modifies this`state, dev.mem, dev`log, table, table.entry
      ensures var e := Rollback(old(dev.Contents()), dev.protection, old(state));
              Did(old(dev.Contents()), old(dev.log), e) && err == e.error
    {
      if !state.initialized { return NotInitialized; }
      var target := if state.running == APP_A then APP_B else APP_A;
      state := state.(info := state.info.(common := state.info.common.(
        active := target, pending := target, confirmed := true,
        rollbackCount := Increment(state.info.common.rollbackCount))));
      var _ := Save();
      err := OK;
    }

    method OtaConfirmBoot() returns (err: Error)
      requires Valid()
      modifies this`state, dev.mem, dev`log, table, table.entry
      ensures var e := Confirm(old(dev.Contents()), dev.protection, old(state));
              Did(old(dev.Contents()), old(dev.log), e) && err == e.error
    {
      if !state.initialized { return NotInitialized; }
      state := state.(info := state.info.(common := state.info.common.(confirmed := true, active := state.running)));
      err := Save();
    }

    /** Reads one chunk and runs the CRC register over it. */
    method CrcChunk(start: nat, offset: nat, chunk: nat, crc: Word) returns (r: Word)
      requires Valid() && table.initialized && start + offset + chunk <= TOTAL_SIZE && chunk > 0
      requires crc == Crc32.Serial(0xFFFF_FFFF, dev.Contents()[start..start + offset])
      ensures r == Crc32.Serial(0xFFFF_FFFF, dev.Contents()[start..start + offset + chunk])
    {
      ghost var m := dev.Contents();
      var flashErr, buffer := dev.Read(start + offset, chunk);
      Crc32.SerialAppend(0xFFFF_FFFF, m[start..start + offset], buffer);
      SlicesJoin(m, start, start + offset, start + offset + chunk);
      r := table.Update(crc, buffer);
    }

    /** The CRC of a whole partition, read in 4096-byte chunks into a buffer that may not be had. */
    method OtaComputeCrc32(p: Word, hasBuffer: bool) returns (err: Error, crc: Word)
      requires Valid()
      modifies table, table.entry
      ensures Valid() && dev.Contents() == old(dev.Contents())
      ensures err == if p >= PARTITION_MAX then InvalidArgument else if !hasBuffer then FlashError else OK
      ensures err == OK ==> crc == Crc32.Crc(dev.Contents()[StartOf(p)..EndOf(p)])
    {
      if p >= PARTITION_MAX { return InvalidArgument, 0; }
      if !hasBuffer { return FlashError, 0; }
      table.Init();
      var start, size := StartOf(p), SizeOf(p);
      crc := 0xFFFF_FFFF;
      var offset, remaining := 0, size;
      while remaining > 0
        invariant Valid() && table.initialized && dev.Contents() == old(dev.Contents())
        invariant offset + remaining == size && crc == Crc32.Serial(0xFFFF_FFFF, dev.Contents()[start..start + offset])
      {
        var chunk := if remaining < 4096 then remaining else 4096;
        crc := CrcChunk(start, offset, chunk, crc);
        offset, remaining := offset + chunk, remaining - chunk;
      }
      crc := 0xFFFF_FFFF - crc;
      err := OK;
    }
  }
}
