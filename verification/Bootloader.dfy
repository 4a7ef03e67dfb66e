/**
 * The bootloader: pending-update selection, attempt counting, verification and rollback.
 * It changes flash only by saving boot records, so a run is described by the records it saves.
 */
module Bootloader {
  import opened Bytes
  import opened Flash
  import opened BootInfo
  import opened Wrappers

  const MAX_BOOT_ATTEMPTS := 3

  /** Which partitions hold an image that passes the check. */
  datatype Images = Images(loader: bool, appA: bool, appB: bool)

  function ImagesOf(m: Memory): Images {
    Images(Verifies(m, BOOTLOADER), Verifies(m, APP_A), Verifies(m, APP_B))
  }

  /** The check as the bootloader sees it: the data partition holds a boot record, never an image. */
  predicate Passes(v: Images, p: Word) {
    (p == BOOTLOADER && v.loader) || (p == APP_A && v.appA) || (p == APP_B && v.appB)
  }

  /** A boot in progress: the records saved so far and the record in RAM. */
  datatype Boot = Boot(saves: seq<LoaderInfo>, info: LoaderInfo)

  function Save(b: Boot): Boot { Boot(b.saves + [b.info], b.info) }

  function LoadOrDefault(i: LoaderInfo): Boot {
    if i.common.magic == BOOT_MAGIC then Boot([], i) else Save(Boot([], LoaderInfo(DefaultCommon, 0, 0, 0)))
  }

  /** Switches to the alternate application and marks it confirmed. */
  function RolledBack(i: LoaderInfo): LoaderInfo {
    var c := i.common;
    LoaderInfo(
      c.(rollbackCount := Increment(c.rollbackCount), active := Other(c.active), pending := Other(c.active),
        confirmed := true),
      0, i.lastBoot, i.crc)
  }

  function HandleFailure(b: Boot): Boot {
    Save(b.(info := RolledBack(b.info)))
  }

  function SelectPending(v: Images, b: Boot): Boot {
    var c := b.info.common;
    if c.pending != c.active && !c.confirmed then
      Save(b.(info :=
        if Passes(v, c.pending) then b.info.(common := c.(active := c.pending), attempts := 0)
        else b.info.(common := c.(pending := c.active, confirmed := true))))
    else b
  }

  function CountAttempt(b: Boot): Option<Boot> {
    if b.info.common.confirmed then Some(b)
    else
      var b1 := b.(info := b.info.(attempts := Increment(b.info.attempts)));
      if b1.info.attempts < MAX_BOOT_ATTEMPTS then Some(Save(b1))
      else if b1.info.common.rollbackEnabled then Some(Save(HandleFailure(b1)))
      else None
  }

  /** Leaves a bootable selection, or reports that there is none. */
  function EnsureVerified(v: Images, b: Boot): (Boot, bool) {
    if Passes(v, b.info.common.active) then (b, true)
    else if !b.info.common.rollbackEnabled then (b, false)
    else (HandleFailure(b), Passes(v, HandleFailure(b).info.common.active))
  }

  function CountBoot(b: Boot): Boot {
    Save(b.(info := b.info.(common := b.info.common.(bootCount := Increment(b.info.common.bootCount)))))
  }

  datatype Outcome = Outcome(saves: seq<LoaderInfo>, launched: Option<Word>)

  /** One run of the bootloader from reset to jump, given the images and the record it finds. */
  function Run(v: Images, i: LoaderInfo): Outcome {
    var b := SelectPending(v, LoadOrDefault(i));
    match CountAttempt(b)
    case None => Outcome(b.saves, None)
    case Some(b1) => Jump(v, b1)
  }

  /** The end of a run: the selection is verified, the boot is counted, and control passes on. */
  function Jump(v: Images, b: Boot): Outcome {
    var (b1, ok) := EnsureVerified(v, b);
    if !ok then Outcome(b1.saves, None) else Outcome(CountBoot(b1).saves, Some(b1.info.common.active))
  }

  // ---- Flash during a run ----

  function FlashAfter(m: Memory, saves: seq<LoaderInfo>): Memory {
    if saves == [] then m else Saved(FlashAfter(m, saves[..|saves| - 1]), LoaderWords(saves[|saves| - 1]))
  }

  /** The contents flash goes through: each save is an erase and a program. */
  function FlashLog(m: Memory, saves: seq<LoaderInfo>): seq<Memory> {
    if saves == [] then []
    else FlashLog(m, saves[..|saves| - 1]) + [Torn(FlashAfter(m, saves[..|saves| - 1])), FlashAfter(m, saves)]
  }

  lemma FlashExtend(m: Memory, saves: seq<LoaderInfo>, i: LoaderInfo)
    ensures FlashAfter(m, saves + [i]) == Saved(FlashAfter(m, saves), LoaderWords(i))
    ensures FlashLog(m, saves + [i]) == FlashLog(m, saves) + [Torn(FlashAfter(m, saves)), FlashAfter(m, saves + [i])]
  {
    assert (saves + [i])[..|saves|] == saves;
  }

  /** A run of saves leaves the images alone. */
  lemma {:induction false} FlashAfterImages(m: Memory, saves: seq<LoaderInfo>)
    ensures SameOutside(m, FlashAfter(m, saves), DATA_START, DATA_START + SECTOR_SIZE)
    ensures ImagesOf(FlashAfter(m, saves)) == ImagesOf(m)
  {
    if saves != [] {
      var rest := saves[..|saves| - 1];
      FlashAfterImages(m, rest);
      SavedConfined(FlashAfter(m, rest), LoaderWords(saves[|saves| - 1]));
    }
    RecordChangeImages(m, FlashAfter(m, saves));
  }

  lemma RecordChangeImages(m: Memory, m': Memory)
    requires SameOutside(m, m', DATA_START, DATA_START + SECTOR_SIZE)
    ensures ImagesOf(m') == ImagesOf(m)
  {
    VerifiesFrame(m, m', BOOTLOADER, DATA_START, DATA_START + SECTOR_SIZE);
    VerifiesFrame(m, m', APP_A, DATA_START, DATA_START + SECTOR_SIZE);
    VerifiesFrame(m, m', APP_B, DATA_START, DATA_START + SECTOR_SIZE);
  }

  /** The record in flash is the last one saved. */
  lemma FlashAfterRecord(m: Memory, saves: seq<LoaderInfo>)
    requires saves != [] && WellFormed(saves[|saves| - 1].common)
    ensures LoadLoader(FlashAfter(m, saves)) == saves[|saves| - 1]
  {
    LoaderRoundTrip(FlashAfter(m, saves[..|saves| - 1]), saves[|saves| - 1]);
  }

  lemma {:induction false} FlashLogSize(m: Memory, saves: seq<LoaderInfo>)
    ensures |FlashLog(m, saves)| == 2 * |saves|
  {
    if saves != [] { FlashLogSize(m, saves[..|saves| - 1]); }
  }

  /** Entry k of the log: an erased record after an even number of flash calls, else a completed save. */
  function LogEntry(m: Memory, saves: seq<LoaderInfo>, k: nat): Memory
    requires k < 2 * |saves|
  {
    if k % 2 == 0 then Torn(FlashAfter(m, saves[..k / 2])) else FlashAfter(m, saves[..k / 2 + 1])
  }

  /** The log is that of the saves but the last, and what the last goes through. */
  lemma FlashLogLast(m: Memory, saves: seq<LoaderInfo>, log: seq<Memory>)
    returns (rest: seq<LoaderInfo>, front: seq<Memory>)
    requires saves != [] && log == FlashLog(m, saves)
    ensures rest == saves[..|saves| - 1] && front == FlashLog(m, rest) && |front| == 2 * |rest|
    ensures log == front + [Torn(FlashAfter(m, rest)), FlashAfter(m, saves)]
  {
    rest := saves[..|saves| - 1];
    front := FlashLog(m, rest);
    FlashLogSize(m, rest);
  }

  lemma EarlierEntry(m: Memory, saves: seq<LoaderInfo>, rest: seq<LoaderInfo>, k: nat)
    requires saves != [] && rest == saves[..|saves| - 1] && k < 2 * |rest|
    ensures LogEntry(m, saves, k) == LogEntry(m, rest, k)
  {
    assert rest[..k / 2] == saves[..k / 2] && rest[..k / 2 + 1] == saves[..k / 2 + 1];
  }

  lemma TornEntry(m: Memory, saves: seq<LoaderInfo>, n: nat, k: nat)
    requires n < |saves| && k == 2 * n
    ensures LogEntry(m, saves, k) == Torn(FlashAfter(m, saves[..n]))
  {
    assert k / 2 == n && k % 2 == 0;
  }

  lemma SavedEntry(m: Memory, saves: seq<LoaderInfo>, n: nat, k: nat)
    requires n < |saves| && k == 2 * n + 1
    ensures LogEntry(m, saves, k) == FlashAfter(m, saves[..n + 1])
  {
    assert k / 2 == n && k % 2 == 1;
  }

  lemma {:induction false} FlashLogEntry(m: Memory, saves: seq<LoaderInfo>, k: nat, log: seq<Memory>)
    requires k < 2 * |saves| && log == FlashLog(m, saves)
    ensures |log| == 2 * |saves| && log[k] == LogEntry(m, saves, k)
  {
    var rest, front := FlashLogLast(m, saves, log);
    if k < |front| {
      FlashLogEntry(m, rest, k, front);
      EarlierEntry(m, saves, rest, k);
    } else if k == |front| {
      TornEntry(m, saves, |rest|, k);
    } else {
      SavedEntry(m, saves, |rest|, k);
      assert saves[..|rest| + 1] == saves;
    }
  }

  /** After an even number of flash calls the record is erased, after an odd number a save is complete. */
  lemma FlashLogAt(m: Memory, saves: seq<LoaderInfo>, k: nat)
    requires k < 2 * |saves|
    ensures |FlashLog(m, saves)| == 2 * |saves|
    ensures FlashLog(m, saves)[k] ==
      if k % 2 == 0 then Torn(FlashAfter(m, saves[..k / 2])) else FlashAfter(m, saves[..k / 2 + 1])
  {
    FlashLogEntry(m, saves, k, FlashLog(m, saves));
  }

  // ---- The imperative bootloader ----

  /** The device holds what `FlashAfter` and `FlashLog` say, and RAM holds `info`. */
  ghost predicate Tracks(dev: Device, before: seq<Memory>, m0: Memory, b: Boot, info: LoaderInfo)
    reads dev, dev.mem
  {
    && dev.Valid() && dev.protection == Unprotected && info == b.info
    && dev.Contents() == FlashAfter(m0, b.saves) && dev.log == before + FlashLog(m0, b.saves)
    && WellFormed(info.common) && info.common.magic == BOOT_MAGIC
    && RecordWord(dev.Contents(), 0) == BOOT_MAGIC
  }

  method WriteBootInfo(dev: Device, info: LoaderInfo, ghost before: seq<Memory>, ghost m0: Memory, ghost b: Boot)
    returns (ok: bool)
    requires dev.Valid() && dev.protection == Unprotected
    requires dev.Contents() == FlashAfter(m0, b.saves) && dev.log == before + FlashLog(m0, b.saves)
    requires WellFormed(info.common) && info.common.magic == BOOT_MAGIC
    modifies dev.mem, dev`log
    ensures ok && Tracks(dev, before, m0, Save(b.(info := info)), info)
  {
    var err := dev.EraseSector(DATA_START);
    if err != Ok { return false; }
    err := dev.Write(DATA_START, Layout(LoaderWords(info)));
    if err != Ok { return false; }
    FlashExtend(m0, b.saves, info);
    SavedWord(FlashAfter(m0, b.saves), LoaderWords(info), 0);
    ok := true;
  }

  method VerifyPartition(dev: Device, p: Word, ghost before: seq<Memory>, ghost m0: Memory, ghost b: Boot)
    returns (ok: bool)
    requires Tracks(dev, before, m0, b, b.info)
    ensures ok == Passes(ImagesOf(m0), p)
  {
    FlashAfterImages(m0, b.saves);
    assert GetWord(dev.mem[..], DATA_START) == BOOT_MAGIC;
    ok := Verifies(dev.mem[..], p);
  }

  method HandleBootFailure(dev: Device, i: LoaderInfo, ghost before: seq<Memory>, ghost m0: Memory, ghost b: Boot)
    returns (info: LoaderInfo)
    requires Tracks(dev, before, m0, b, b.info) && i.common == b.info.common
    modifies dev.mem, dev`log
    ensures Tracks(dev, before, m0, HandleFailure(b.(info := i)), info)
  {
    info := i;
    info := info.(common := info.common.(rollbackCount := Increment(info.common.rollbackCount)));
    if info.common.active == APP_A {
      info := info.(common := info.common.(active := APP_B));
    } else {
      info := info.(common := info.common.(active := APP_A));
    }
    info := info.(common := info.common.(pending := info.common.active, confirmed := true), attempts := 0);
    var _ := WriteBootInfo(dev, info, before, m0, b);
  }

  method ReadOrInitialize(dev: Device) returns (info: LoaderInfo)
    requires dev.Valid() && dev.protection == Unprotected
    modifies dev.mem, dev`log
    ensures var m0 := old(dev.Contents()); Tracks(dev, old(dev.log), m0, LoadOrDefault(LoadLoader(m0)), info)
  {
    ghost var m0 := dev.Contents();
    info := LoadLoader(dev.mem[..]);
    LoadedWellFormed(m0);
    if info.common.magic != BOOT_MAGIC {
      info := LoaderInfo(DefaultCommon, 0, 0, 0);
      var _ := WriteBootInfo(dev, info, dev.log, m0, Boot([], info));
    }
  }

  method ChoosePartition(dev: Device, i: LoaderInfo, ghost before: seq<Memory>, ghost m0: Memory, ghost b: Boot)
    returns (info: LoaderInfo, partition: Word)
    requires Tracks(dev, before, m0, b, i)
    modifies dev.mem, dev`log
    ensures Tracks(dev, before, m0, SelectPending(ImagesOf(m0), b), info) && partition == info.common.active
  {
    info := i;
    if info.common.pending != info.common.active && !info.common.confirmed {
      partition := info.common.pending;
      var ok := VerifyPartition(dev, partition, before, m0, b);
      if ok {
        info := info.(common := info.common.(active := partition), attempts := 0);
      } else {
        partition := info.common.active;
        info := info.(common := info.common.(pending := info.common.active, confirmed := true));
      }
      var _ := WriteBootInfo(dev, info, before, m0, b);
    } else {
      partition := info.common.active;
    }
  }

  method CheckAttempts(dev: Device, i: LoaderInfo, p: Word, ghost before: seq<Memory>, ghost m0: Memory, ghost b: Boot)
    returns (stop: bool, info: LoaderInfo, partition: Word)
    requires Tracks(dev, before, m0, b, i) && p == i.common.active
    modifies dev.mem, dev`log
    ensures stop <==> CountAttempt(b) == None
    ensures stop ==> Tracks(dev, before, m0, b, i)
    ensures !stop ==> Tracks(dev, before, m0, CountAttempt(b).value, info) && partition == info.common.active
  {
    info, partition := i, p;
    ghost var now := b;
    if !info.common.confirmed {
      info := info.(attempts := Increment(info.attempts));
      if info.attempts >= MAX_BOOT_ATTEMPTS {
        if !info.common.rollbackEnabled { return true, info, partition; }
        now := HandleFailure(now.(info := info));
        info := HandleBootFailure(dev, info, before, m0, b);
        partition := info.common.active;
      }
      var _ := WriteBootInfo(dev, info, before, m0, now);
    }
    stop := false;
  }

  method CheckImage(dev: Device, i: LoaderInfo, p: Word, ghost before: seq<Memory>, ghost m0: Memory, ghost b: Boot)
    returns (ok: bool, info: LoaderInfo, partition: Word)
    requires Tracks(dev, before, m0, b, i) && p == i.common.active
    modifies dev.mem, dev`log
    ensures ok == EnsureVerified(ImagesOf(m0), b).1
    ensures Tracks(dev, before, m0, EnsureVerified(ImagesOf(m0), b).0, info) && partition == info.common.active
  {
    info, partition := i, p;
    ok := VerifyPartition(dev, partition, before, m0, b);
    if !ok && info.common.rollbackEnabled {
      info := HandleBootFailure(dev, info, before, m0, b);
      partition := info.common.active;
      ok := VerifyPartition(dev, partition, before, m0, HandleFailure(b));
    }
  }

  method JumpToApplication(dev: Device, i: LoaderInfo, p: Word, ghost before: seq<Memory>, ghost m0: Memory,
      ghost b: Boot)
    returns (launched: Option<Word>)
    requires Tracks(dev, before, m0, b, i) && p == i.common.active
    modifies dev.mem, dev`log
    ensures dev.Valid()
    ensures var run := Jump(ImagesOf(m0), b);
            && dev.Contents() == FlashAfter(m0, run.saves) && dev.log == before + FlashLog(m0, run.saves)
            && launched == run.launched
  {
    var ok, info, partition := CheckImage(dev, i, p, before, m0, b);
    ghost var b1 := EnsureVerified(ImagesOf(m0), b).0;
    if !ok { return None; }
    info := info.(common := info.common.(bootCount := Increment(info.common.bootCount)));
    var _ := WriteBootInfo(dev, info, before, m0, b1);
    if partition >= PARTITION_MAX { return None; }
    return Some(partition);
  }

  /** The imperative bootloader computes `Run`, flash call by flash call. */
  method BootloaderMain(dev: Device) returns (launched: Option<Word>)
    requires dev.Valid() && dev.protection == Unprotected
    modifies dev.mem, dev`log
    ensures dev.Valid()
    ensures var m0 := old(dev.Contents());
            var run := Run(ImagesOf(m0), LoadLoader(m0));
            && dev.Contents() == FlashAfter(m0, run.saves) && dev.log == old(dev.log) + FlashLog(m0, run.saves)
            && launched == run.launched
  {
    ghost var before, m0 := dev.log, dev.Contents();
    ghost var v, b := ImagesOf(m0), LoadOrDefault(LoadLoader(m0));
    var stop, partition;
    var info := ReadOrInitialize(dev);
    info, partition := ChoosePartition(dev, info, before, m0, b);
    b := SelectPending(v, b);
    stop, info, partition := CheckAttempts(dev, info, partition, before, m0, b);
    if stop { return None; }
    launched := JumpToApplication(dev, info, partition, before, m0, CountAttempt(b).value);
  }
}
