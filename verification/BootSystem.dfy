/**
 * The A/B update protocol as a transition system: library calls, boots, resets,
 * and a power loss between any two flash calls.
 */
module BootSystem {
  import opened Bytes
  import opened Flash
  import opened BootInfo
  import opened Wrappers
  import Bootloader
  import Ota

  /** Powered down (only flash survives), or running application `app`. */
  datatype System =
    | Off(mem: Memory)
    | On(mem: Memory, app: Word, ota: Ota.State, protection: Protection)

  datatype Call =
    | Init
    | StartUpdate(image: seq<Byte>)
    | WriteChunk(data: seq<Byte>, offset: Word)
    | Finalize
    | Abort
    | SetBootPartition(target: Word)
    | Rollback
    | Confirm

  datatype Event =
    | Boot                        // a complete run of the bootloader
    | BootCut(calls: nat)         // power loss after that many flash calls of the bootloader
    | Do(call: Call)              // a complete library call
    | DoCut(call: Call, calls: nat)
    | Protect(range: Protection)  // the application changes the flash protection
    | Reset

  function Effect(s: System, call: Call): Ota.Effect
    requires s.On? && s.ota.update < PARTITION_MAX
  {
    match call
    case Init => Ota.Init(s.mem, s.protection, s.ota)
    case StartUpdate(image) => Ota.StartUpdate(s.mem, s.protection, s.ota, image)
    case WriteChunk(data, offset) => Ota.WriteChunk(s.mem, s.protection, s.ota, data, offset)
    case Finalize => Ota.Finalize(s.mem, s.protection, s.ota)
    case Abort => Ota.Abort(s.ota)
    case SetBootPartition(target) => Ota.SetBootPartition(s.mem, s.protection, s.ota, target)
    case Rollback => Ota.Rollback(s.mem, s.protection, s.ota)
    case Confirm => Ota.Confirm(s.mem, s.protection, s.ota)
  }

  /** Flash after only the first `calls` of the flash calls that produced `log`. */
  function Cut(m: Memory, log: seq<Memory>, calls: nat): Memory {
    Final(m, if calls < |log| then log[..calls] else log)
  }

  /** A complete run of the bootloader over this flash. */
  function BootRun(m: Memory): Bootloader.Outcome {
    Bootloader.Run(Bootloader.ImagesOf(m), LoadLoader(m))
  }

  function AfterBoot(m: Memory, run: Bootloader.Outcome): System {
    var m' := Bootloader.FlashAfter(m, run.saves);
    if run.launched.None? then Off(m') else On(m', run.launched.value, Ota.Zeroed, Unprotected)
  }

  function AfterBootCut(m: Memory, run: Bootloader.Outcome, calls: nat): System {
    Off(Cut(m, Bootloader.FlashLog(m, run.saves), calls))
  }

  function Next(s: System, e: Event): System {
    match e
    case Reset => Off(s.mem)
    case Boot =>
      if s.On? then s else AfterBoot(s.mem, BootRun(s.mem))
    case BootCut(calls) =>
      if s.On? then s else AfterBootCut(s.mem, BootRun(s.mem), calls)
    case Do(call) =>
      if s.Off? || s.ota.update >= PARTITION_MAX then s
      else
        var e := Effect(s, call);
        On(Final(s.mem, e.log), s.app, e.state, s.protection)
    case DoCut(call, calls) =>
      if s.Off? || s.ota.update >= PARTITION_MAX then s else Off(Cut(s.mem, Effect(s, call).log, calls))
    case Protect(range) => if s.Off? then s else s.(protection := range)
  }

  function Run(s: System, events: seq<Event>): System
    decreases |events|
  {
    if events == [] then s else Run(Next(s, events[0]), events[1..])
  }

  /**
   * Obligations on the caller: no 32-bit wrap in a chunk write, and no boot selection before `ota_init` while APP_B
   * runs, unless power is lost in the middle of it or the flash refuses to erase the record.
   */
  predicate Disciplined(s: System, e: Event) {
    (e.Do? || e.DoCut?) && s.On? ==>
      match e.call
      case WriteChunk(data, offset) => offset + |data| < 0x1_0000_0000
      case SetBootPartition(target) =>
        || s.ota.initialized || s.app != APP_B || e.DoCut?
        || Ota.SetBootPartition(s.mem, s.protection, s.ota, target).log == []
      case _ => true
  }

  predicate DisciplinedRun(s: System, events: seq<Event>)
    decreases |events|
  {
    events == [] || (Disciplined(s, events[0]) && DisciplinedRun(Next(s, events[0]), events[1..]))
  }

  predicate IsApp(p: Word) { p == APP_A || p == APP_B }

  ghost predicate GoodCommon(c: Common) {
    WellFormed(c) && c.magic == BOOT_MAGIC && IsApp(c.active) && c.pending < PARTITION_MAX && c.rollbackEnabled
  }

  /** The boot record is either unreadable or sane. */
  ghost predicate RecordOk(m: Memory) {
    LoadCommon(m).magic == BOOT_MAGIC ==> GoodCommon(LoadCommon(m))
  }

  ghost predicate Bootable(m: Memory) {
    RecordOk(m) && (Verifies(m, APP_A) || Verifies(m, APP_B)) && !Verifies(m, BOOTLOADER)
  }

  /** What holds while `app` runs: its own image is intact. */
  ghost predicate Sound(m: Memory, app: Word) {
    IsApp(app) && RecordOk(m) && Verifies(m, app) && !Verifies(m, BOOTLOADER)
  }

  ghost predicate ReadyState(s: Ota.State, app: Word) {
    s.initialized && s.running == app && s.update == Other(app) && GoodCommon(s.info.common)
  }

  /**
   * Before `ota_init`: a readable record has the running application active, and so has the record in RAM if an
   * `ota_init` that failed has left one there; without a readable record the default, in favour of APP_A, will do.
   */
  ghost predicate EarlyState(m: Memory, o: Ota.State, app: Word) {
    && !o.initialized && o.update < PARTITION_MAX && WellFormed(o.info.common)
    && (if LoadCommon(m).magic == BOOT_MAGIC then LoadCommon(m).active == app else app == APP_A)
    && (o.info.common.magic == BOOT_MAGIC ==> app == APP_A && GoodCommon(o.info.common) && o.info.common.active == app)
  }

  ghost predicate Inv(s: System) {
    match s
    case Off(m) => Bootable(m)
    case On(m, app, ota, _) => Sound(m, app) && (ReadyState(ota, app) || EarlyState(m, ota, app))
  }

  // ---- Flash changes that keep the running image and the record ----

  lemma SpareChangeSound(m: Memory, m': Memory, app: Word)
    requires Sound(m, app) && SameOutside(m, m', StartOf(Other(app)), EndOf(Other(app)))
    ensures Sound(m', app) && LoadCommon(m') == LoadCommon(m)
  {
    VerifiesFrame(m, m', app, StartOf(Other(app)), EndOf(Other(app)));
    VerifiesFrame(m, m', BOOTLOADER, StartOf(Other(app)), EndOf(Other(app)));
  }

  lemma RecordChangeVerifies(m: Memory, m': Memory, p: Word)
    requires SameOutside(m, m', DATA_START, DATA_START + SECTOR_SIZE) && p != DATA
    ensures Verifies(m', p) == Verifies(m, p)
  {
    VerifiesFrame(m, m', p, DATA_START, DATA_START + SECTOR_SIZE);
  }

  lemma TornSound(m: Memory, app: Word)
    requires Sound(m, app)
    ensures Sound(Torn(m), app)
  {
    TornIsInvalid(m);
    RecordChangeVerifies(m, Torn(m), app);
    RecordChangeVerifies(m, Torn(m), BOOTLOADER);
  }

  lemma SavedSound(m: Memory, app: Word, c: Common, rest: seq<Word>)
    requires Sound(m, app) && GoodCommon(c) && |rest| <= 10
    ensures Sound(Saved(m, CommonWords(c) + rest), app)
    ensures LoadCommon(Saved(m, CommonWords(c) + rest)) == c
  {
    var m' := Saved(m, CommonWords(c) + rest);
    SavedConfined(m, CommonWords(c) + rest);
    SavedCommon(m, c, rest);
    RecordChangeVerifies(m, m', app);
    RecordChangeVerifies(m, m', BOOTLOADER);
  }

  lemma SoundIsBootable(m: Memory, app: Word)
    requires Sound(m, app)
    ensures Bootable(m)
  {
  }

  // ---- Library calls ----

  /** Every flash content of a call keeps the running image, and so does the RAM state it returns. */
  ghost predicate EffectSound(e: Ota.Effect, app: Word) {
    (forall k :: 0 <= k < |e.log| ==> Sound(e.log[k], app)) && ReadyState(e.state, app)
  }

  lemma SaveSound(m: Memory, p: Protection, s: Ota.State, app: Word)
    requires Sound(m, app) && ReadyState(s, app)
    ensures EffectSound(Ota.SaveInfo(m, p, s), app)
  {
    TornSound(m, app);
    var info := Ota.Checksummed(s.info);
    SavedSound(m, app, info.common, [info.crc]);
  }

  /** Writing an image changes only the partition it is written to. */
  lemma WriteImageConfined(m: Memory, p: Protection, q: App, image: seq<Byte>, k: nat)
    requires |image| <= APP_SIZE && k < |Ota.WriteImage(m, p, q, image).0|
    ensures SameOutside(m, Ota.WriteImage(m, p, q, image).0[k], StartOf(q), EndOf(q))
  {
    var start, end := StartOf(q), SectorOf(StartOf(q) + SizeOf(q) + SECTOR_SIZE - 1);
    assert SectorOf(start) == start && end == EndOf(q);
    var erased := EraseLog(m, p, start, end);
    if k < |erased| {
      EraseLogConfined(m, p, start, end, k);
    } else if erased != [] {
      EraseLogConfined(m, p, start, end, |erased| - 1);
    }
  }

  lemma WriteImageSound(m: Memory, p: Protection, app: Word, image: seq<Byte>, k: nat)
    requires Sound(m, app) && |image| <= APP_SIZE
    requires k < |Ota.WriteImage(m, p, Other(app), image).0|
    ensures Sound(Ota.WriteImage(m, p, Other(app), image).0[k], app)
  {
    WriteImageConfined(m, p, Other(app), image, k);
    SpareChangeSound(m, Ota.WriteImage(m, p, Other(app), image).0[k], app);
  }

  lemma StartUpdateSound(m: Memory, p: Protection, s: Ota.State, app: Word, image: seq<Byte>)
    requires Sound(m, app) && ReadyState(s, app)
    ensures EffectSound(Ota.StartUpdate(m, p, s, image), app)
  {
    var e := Ota.StartUpdate(m, p, s, image);
    if Ota.HasImage(image) {
      var (log, err) := Ota.WriteImage(m, p, s.update, image);
      forall k | 0 <= k < |log| ensures Sound(log[k], app) { WriteImageSound(m, p, app, image, k); }
      if err == Ota.OK {
        var s1 := s.(progress := Ota.Verifying);
        SaveSound(Final(m, log), p,
          s1.(info := s1.info.(common := s1.info.common.(pending := s.update, confirmed := false))), app);
      }
    }
  }

  lemma WriteChunkSound(m: Memory, p: Protection, s: Ota.State, app: Word, data: seq<Byte>, offset: Word)
    requires Sound(m, app) && ReadyState(s, app) && offset + |data| < 0x1_0000_0000
    ensures EffectSound(Ota.WriteChunk(m, p, s, data, offset), app)
  {
    var e := Ota.WriteChunk(m, p, s, data, offset);
    if e.error == Ota.OK {
      Ota.ChunkConfined(m, p, s, data, offset);
      assert SameOutside(m, e.log[0], StartOf(Other(app)), EndOf(Other(app)));
      SpareChangeSound(m, e.log[0], app);
    }
  }

  lemma PendSound(m: Memory, p: Protection, s: Ota.State, app: Word, target: Word)
    requires Sound(m, app) && ReadyState(s, app) && target < PARTITION_MAX
    ensures EffectSound(Ota.Pend(m, p, s, target), app)
  {
    SaveSound(m, p, s.(info := s.info.(common := s.info.common.(pending := target, confirmed := false))), app);
  }

  lemma RollbackSound(m: Memory, p: Protection, s: Ota.State, app: Word)
    requires Sound(m, app) && ReadyState(s, app)
    ensures EffectSound(Ota.Rollback(m, p, s), app)
  {
    var c, other := s.info.common, Other(s.running);
    SaveSound(m, p, s.(info := s.info.(common :=
      c.(active := other, pending := other, confirmed := true, rollbackCount := Increment(c.rollbackCount)))), app);
  }

  lemma ConfirmSound(m: Memory, p: Protection, s: Ota.State, app: Word)
    requires Sound(m, app) && ReadyState(s, app)
    ensures EffectSound(Ota.Confirm(m, p, s), app)
  {
    SaveSound(m, p, s.(info := s.info.(common := s.info.common.(confirmed := true, active := s.running))), app);
  }

  lemma CallSound(s: System, call: Call)
    requires Inv(s) && s.On? && s.ota.initialized && Disciplined(s, DoCut(call, 0))
    ensures EffectSound(Effect(s, call), s.app)
  {
    var m, p, o := s.mem, s.protection, s.ota;
    match call
    case Init =>
    case StartUpdate(image) => StartUpdateSound(m, p, o, s.app, image);
    case WriteChunk(data, offset) => WriteChunkSound(m, p, o, s.app, data, offset);
    case Abort =>
    case Finalize => PendSound(m, p, o, s.app, o.update);
    case SetBootPartition(target) => if target < PARTITION_MAX { PendSound(m, p, o, s.app, target); }
    case Rollback => RollbackSound(m, p, o, s.app);
    case Confirm => ConfirmSound(m, p, o, s.app);
  }

  // ---- Library calls before ota_init ----

  ghost predicate LogSound(log: seq<Memory>, app: Word) { forall k :: 0 <= k < |log| ==> Sound(log[k], app) }

  /** Saving a record that is good or not readable at all. */
  lemma SavedEither(m: Memory, app: Word, info: OtaInfo)
    requires Sound(m, app) && WellFormed(info.common) && (info.common.magic == BOOT_MAGIC ==> GoodCommon(info.common))
    ensures Sound(Saved(m, OtaWords(info)), app) && LoadCommon(Saved(m, OtaWords(info))) == info.common
  {
    var m' := Saved(m, OtaWords(info));
    SavedCommon(m, info.common, [info.crc]);
    SavedConfined(m, OtaWords(info));
    RecordChangeVerifies(m, m', app);
    RecordChangeVerifies(m, m', BOOTLOADER);
  }

  lemma EarlySave(m: Memory, p: Protection, o: Ota.State, app: Word) returns (e: Ota.Effect)
    requires Sound(m, app) && WellFormed(o.info.common)
    requires o.info.common.magic == BOOT_MAGIC ==> GoodCommon(o.info.common)
    ensures e == Ota.SaveInfo(m, p, o) && LogSound(e.log, app)
    ensures e.log != [] ==>
      || LoadCommon(Final(m, e.log)).magic != BOOT_MAGIC
      || (e.error == Ota.OK && LoadCommon(Final(m, e.log)) == o.info.common)
    ensures e.error == Ota.OK ==> e.log != []
  {
    e := Ota.SaveInfo(m, p, o);
    TornSound(m, app);
    TornIsInvalid(m);
    SavedEither(m, app, Ota.Checksummed(o.info));
  }

  /** `ota_init`: ready, or, if the default record cannot be saved, still early. */
  lemma EarlyInit(m: Memory, p: Protection, o: Ota.State, app: Word) returns (e: Ota.Effect)
    requires Sound(m, app) && EarlyState(m, o, app)
    ensures e == Ota.Init(m, p, o) && LogSound(e.log, app)
    ensures ReadyState(e.state, app) || EarlyState(Final(m, e.log), e.state, app)
  {
    e := Ota.Init(m, p, o);
    LoadedWellFormed(m);
    if LoadCommon(m).magic != BOOT_MAGIC {
      var save := EarlySave(m, p, o.(info := OtaInfo(DefaultCommon, 0)), app);
    }
  }

  /** A boot selection: still early, unless APP_B runs and the record is gone. */
  lemma EarlySelection(m: Memory, p: Protection, o: Ota.State, app: Word, target: Word) returns (e: Ota.Effect)
    requires Sound(m, app) && EarlyState(m, o, app)
    ensures e == Ota.SetBootPartition(m, p, o, target) && LogSound(e.log, app)
    ensures app == APP_A || e.log == [] ==> EarlyState(Final(m, e.log), e.state, app)
  {
    e := Ota.SetBootPartition(m, p, o, target);
    if target < PARTITION_MAX {
      var o1 := o.(info := o.info.(common := o.info.common.(pending := target, confirmed := false)));
      var save := EarlySave(m, p, o1, app);
    }
  }

  lemma EarlyOther(s: System, call: Call)
    requires s.On? && !s.ota.initialized && s.ota.update < PARTITION_MAX && !call.Init? && !call.SetBootPartition?
    ensures Effect(s, call).log == [] && Effect(s, call).state == s.ota
  {
  }

  lemma EarlyCall(s: System, call: Call) returns (e: Ota.Effect)
    requires Inv(s) && s.On? && !s.ota.initialized
    ensures e == Effect(s, call) && LogSound(e.log, s.app)
    ensures Disciplined(s, Do(call)) ==>
      ReadyState(e.state, s.app) || EarlyState(Final(s.mem, e.log), e.state, s.app)
  {
    if call.Init? {
      e := EarlyInit(s.mem, s.protection, s.ota, s.app);
    } else if call.SetBootPartition? {
      e := EarlySelection(s.mem, s.protection, s.ota, s.app, call.target);
    } else {
      EarlyOther(s, call);
      e := Effect(s, call);
    }
  }

  // ---- The bootloader ----

  /** Some application can boot, and the bootloader's own code does not look like an image. */
  ghost predicate SomeApp(v: Bootloader.Images) { (v.appA || v.appB) && !v.loader }

  /** Every record saved so far is sane, and so is the one in RAM. */
  ghost predicate GoodBoot(b: Bootloader.Boot) {
    GoodCommon(b.info.common) && forall k :: 0 <= k < |b.saves| ==> GoodCommon(b.saves[k].common)
  }

  lemma SelectGood(v: Bootloader.Images, b: Bootloader.Boot)
    requires SomeApp(v) && GoodBoot(b)
    ensures GoodBoot(Bootloader.SelectPending(v, b))
  {
  }

  lemma CountGood(b: Bootloader.Boot)
    requires GoodBoot(b)
    ensures Bootloader.CountAttempt(b).Some? && GoodBoot(Bootloader.CountAttempt(b).value)
  {
  }

  /** A run that launches an application that passes, saves that choice last, and saves only sane records. */
  ghost predicate GoodRun(v: Bootloader.Images, run: Bootloader.Outcome) {
    && run.launched.Some? && IsApp(run.launched.value) && Bootloader.Passes(v, run.launched.value)
    && run.saves != [] && run.saves[|run.saves| - 1].common.active == run.launched.value
    && forall k :: 0 <= k < |run.saves| ==> GoodCommon(run.saves[k].common)
  }

  lemma JumpGood(v: Bootloader.Images, b: Bootloader.Boot)
    requires SomeApp(v) && GoodBoot(b)
    ensures GoodRun(v, Bootloader.Jump(v, b))
  {
    assert GoodBoot(Bootloader.EnsureVerified(v, b).0);
  }

  /** From every readable-or-lost record, with some application intact, the run completes. */
  lemma RunGood(v: Bootloader.Images, i: LoaderInfo)
    requires SomeApp(v) && (i.common.magic == BOOT_MAGIC ==> GoodCommon(i.common))
    ensures GoodRun(v, Bootloader.Run(v, i))
  {
    var b := Bootloader.LoadOrDefault(i);
    SelectGood(v, b);
    var b1 := Bootloader.SelectPending(v, b);
    CountGood(b1);
    JumpGood(v, Bootloader.CountAttempt(b1).value);
  }

  lemma SavedBootable(m: Memory, saves: seq<LoaderInfo>)
    requires Bootable(m) && forall k :: 0 <= k < |saves| ==> GoodCommon(saves[k].common)
    ensures Bootable(Bootloader.FlashAfter(m, saves)) && Bootable(Torn(Bootloader.FlashAfter(m, saves)))
  {
    var m' := Bootloader.FlashAfter(m, saves);
    Bootloader.FlashAfterImages(m, saves);
    if saves != [] { Bootloader.FlashAfterRecord(m, saves); }
    TornIsInvalid(m');
    Bootloader.RecordChangeImages(m', Torn(m'));
  }

  lemma LogBootable(m: Memory, saves: seq<LoaderInfo>, k: nat)
    requires Bootable(m) && forall j :: 0 <= j < |saves| ==> GoodCommon(saves[j].common)
    requires k < |Bootloader.FlashLog(m, saves)|
    ensures Bootable(Bootloader.FlashLog(m, saves)[k])
  {
    if saves != [] { Bootloader.FlashLogAt(m, saves, 0); }
    Bootloader.FlashLogAt(m, saves, k);
    SavedBootable(m, saves[..k / 2]);
    SavedBootable(m, saves[..k / 2 + 1]);
  }

  /** What a run of the bootloader leaves: the launched application is intact and active in the record. */
  lemma GoodRunFlash(m: Memory, run: Bootloader.Outcome) returns (m': Memory)
    requires Bootable(m) && GoodRun(Bootloader.ImagesOf(m), run)
    ensures m' == Bootloader.FlashAfter(m, run.saves) && Sound(m', run.launched.value)
    ensures LoadCommon(m').magic == BOOT_MAGIC && LoadCommon(m').active == run.launched.value
  {
    m' := Bootloader.FlashAfter(m, run.saves);
    Bootloader.FlashAfterImages(m, run.saves);
    Bootloader.FlashAfterRecord(m, run.saves);
    SavedBootable(m, run.saves);
  }

  lemma LaunchedEarly(m: Memory, app: Word)
    requires LoadCommon(m).magic == BOOT_MAGIC && LoadCommon(m).active == app
    ensures EarlyState(m, Ota.Zeroed, app)
  {
  }

  lemma GoodRunSound(m: Memory, run: Bootloader.Outcome)
    requires Bootable(m) && GoodRun(Bootloader.ImagesOf(m), run)
    ensures AfterBoot(m, run).On? && Inv(AfterBoot(m, run))
  {
    var m' := GoodRunFlash(m, run);
    LaunchedEarly(m', run.launched.value);
  }

  lemma GoodRunCut(m: Memory, run: Bootloader.Outcome, calls: nat)
    requires Bootable(m) && GoodRun(Bootloader.ImagesOf(m), run)
    ensures Inv(AfterBootCut(m, run, calls))
  {
    var log := Bootloader.FlashLog(m, run.saves);
    forall k | 0 <= k < |log| ensures Bootable(log[k]) { LogBootable(m, run.saves, k); }
    CutSound(m, log, calls);
  }

  lemma BootOf(m: Memory) returns (run: Bootloader.Outcome)
    requires Bootable(m)
    ensures run == BootRun(m) && GoodRun(Bootloader.ImagesOf(m), run)
  {
    RunGood(Bootloader.ImagesOf(m), LoadLoader(m));
    run := BootRun(m);
  }

  lemma BootSteps(m: Memory, run: Bootloader.Outcome, calls: nat)
    requires run == BootRun(m)
    ensures Next(Off(m), Boot) == AfterBoot(m, run) && Next(Off(m), BootCut(calls)) == AfterBootCut(m, run, calls)
  {
  }

  /**
   * From every bootable flash the bootloader completes: it jumps to an application whose image verifies,
   * the saved active partition is the one it jumps to, and a power loss after any number of flash calls
   * leaves flash bootable.
   */
  lemma AlwaysBoots(m: Memory, calls: nat)
    requires Bootable(m)
    ensures Next(Off(m), Boot).On? && Inv(Next(Off(m), Boot))
    ensures Inv(Next(Off(m), BootCut(calls)))
  {
    var run := BootOf(m);
    GoodRunSound(m, run);
    GoodRunCut(m, run, calls);
    BootSteps(m, run, calls);
  }

  // ---- Whole runs ----

  lemma CutSound(m: Memory, log: seq<Memory>, calls: nat)
    requires Bootable(m) && forall k :: 0 <= k < |log| ==> Bootable(log[k])
    ensures Bootable(Cut(m, log, calls))
  {
  }

  /** Every flash state on the way of a call can boot, and a complete call from a good state ends in one. */
  lemma CallOutcome(s: System, call: Call) returns (e: Ota.Effect)
    requires Inv(s) && s.On? && Disciplined(s, DoCut(call, 0))
    ensures s.ota.update < PARTITION_MAX && e == Effect(s, call) && forall k :: 0 <= k < |e.log| ==> Bootable(e.log[k])
    ensures Sound(Final(s.mem, e.log), s.app) && (Disciplined(s, Do(call)) ==> Inv(Next(s, Do(call))))
  {
    if s.ota.initialized {
      e := Effect(s, call);
      assert EffectSound(e, s.app) by { CallSound(s, call); }
    } else {
      e := EarlyCall(s, call);
    }
    Completed(s, call, e);
    forall k | 0 <= k < |e.log| ensures Bootable(e.log[k]) { SoundIsBootable(e.log[k], s.app); }
  }

  lemma CutKeepsInv(s: System, call: Call, calls: nat)
    requires Inv(s) && s.On? && Disciplined(s, DoCut(call, calls))
    ensures Inv(Next(s, DoCut(call, calls)))
  {
    var e := CallOutcome(s, call);
    SoundIsBootable(s.mem, s.app);
    CutSound(s.mem, e.log, calls);
    CutShort(s, call, calls, e);
  }

  lemma CutShort(s: System, call: Call, calls: nat, e: Ota.Effect)
    requires s.On? && s.ota.update < PARTITION_MAX && e == Effect(s, call)
    ensures Next(s, DoCut(call, calls)) == Off(Cut(s.mem, e.log, calls))
  {
  }

  lemma NextKeepsInv(s: System, e: Event)
    requires Inv(s) && Disciplined(s, e)
    ensures Inv(Next(s, e))
  {
    match e
    case Boot => if s.Off? { AlwaysBoots(s.mem, 0); }
    case BootCut(calls) => if s.Off? { AlwaysBoots(s.mem, calls); }
    case Do(call) => if s.On? { var e := CallOutcome(s, call); }
    case DoCut(call, calls) => if s.On? { CutKeepsInv(s, call, calls); }
    case Protect(_) =>
    case Reset => if s.On? { SoundIsBootable(s.mem, s.app); }
  }

  /** From a sane or unreadable record every disciplined run keeps it so: at every point the next boot completes. */
  lemma {:induction false} StaysBootable(s: System, events: seq<Event>)
    requires Inv(s) && DisciplinedRun(s, events)
    ensures Inv(Run(s, events))
    decreases |events|
  {
    if events != [] {
      NextKeepsInv(s, events[0]);
      StaysBootable(Next(s, events[0]), events[1..]);
    }
  }

  // ---- Why the caller must call ota_init first ----

  /**
   * A successful selection leaves a readable boot record exactly when the record in RAM has the right magic number:
   * always after `ota_init`, never on the fresh RAM of a launched application.
   */
  lemma SelectionNeedsInit(s: System, target: Word)
    requires Inv(s) && s.On? && target < PARTITION_MAX
    requires Effect(s, SetBootPartition(target)).error == Ota.OK
    ensures LoadCommon(Next(s, Do(SetBootPartition(target))).mem).magic == BOOT_MAGIC
       <==> s.ota.info.common.magic == BOOT_MAGIC
    ensures s.ota.initialized ==> s.ota.info.common.magic == BOOT_MAGIC
    ensures s.ota == Ota.Zeroed ==> s.ota.info.common.magic != BOOT_MAGIC
  {
    var info := Effect(s, SetBootPartition(target)).state.info;
    SavedWord(s.mem, OtaWords(info), 0);
  }

  /**
   * A selection before `ota_init` makes the library take the default record for the running application:
   * the next update, cut by a power loss after one erase, then destroys the only image that verifies.
   */
  lemma EarlySelectionBricks(m: Memory, image: seq<Byte>)
    requires Sound(m, APP_B) && !Verifies(m, APP_A) && LoadCommon(m).magic == BOOT_MAGIC
    requires LoadCommon(m).active == APP_B
    requires Ota.HasImage(image)
    ensures var s := On(m, APP_B, Ota.Zeroed, Unprotected);
            var s' := Run(s, [Do(SetBootPartition(APP_A)), Do(Init), DoCut(StartUpdate(image), 1)]);
            Inv(s) && s'.Off? && !Verifies(s'.mem, APP_A) && !Verifies(s'.mem, APP_B)
  {
    var s := On(m, APP_B, Ota.Zeroed, Unprotected);
    var s1 := SelectedEarly(s, APP_A);
    var s2 := InitialisedLate(s1);
    var s3 := UpdateCut(s2, image);
    ThreeEvents(s, s1, s2, s3, Do(SetBootPartition(APP_A)), Do(Init), DoCut(StartUpdate(image), 1));
  }

  lemma ThreeEvents(s: System, s1: System, s2: System, s3: System, a: Event, b: Event, c: Event)
    requires s1 == Next(s, a) && s2 == Next(s1, b) && s3 == Next(s2, c)
    ensures Run(s, [a, b, c]) == s3
  {
    ListOfThree(a, b, c);
    RunStep(s, s1, a, [b, c]);
    RunStep(s1, s2, b, [c]);
    RunStep(s2, s3, c, []);
  }

  lemma ListOfThree(a: Event, b: Event, c: Event)
    ensures [a] + [b, c] == [a, b, c] && [b] + [c] == [b, c] && [c] + [] == [c]
  {
  }

  lemma RunStep(s: System, s1: System, e: Event, rest: seq<Event>)
    requires s1 == Next(s, e)
    ensures Run(s, [e] + rest) == Run(s1, rest)
  {
    assert ([e] + rest)[1..] == rest;
  }

  lemma SelectedEarly(s: System, target: Word) returns (s': System)
    requires s.On? && s.app == APP_B && s.ota == Ota.Zeroed && s.protection == Unprotected && target < PARTITION_MAX
    ensures s' == Next(s, Do(SetBootPartition(target)))
    ensures s'.On? && s'.app == APP_B && s'.protection == Unprotected && !s'.ota.initialized
    ensures s'.ota.update < PARTITION_MAX
    ensures LoadCommon(s'.mem).magic != BOOT_MAGIC && Verifies(s'.mem, APP_A) == Verifies(s.mem, APP_A)
  {
    var e, info := EarlyPend(s.mem, s.protection, s.ota, target);
    Completed(s, SetBootPartition(target), e);
    s' := On(Final(s.mem, e.log), s.app, e.state, s.protection);
    EarlyRecord(s.mem, info);
  }

  lemma EarlyPend(m: Memory, p: Protection, o: Ota.State, target: Word) returns (e: Ota.Effect, info: OtaInfo)
    requires p == Unprotected && o == Ota.Zeroed && target < PARTITION_MAX
    ensures e == Ota.SetBootPartition(m, p, o, target)
    ensures Final(m, e.log) == Saved(m, OtaWords(info)) && info.common.magic != BOOT_MAGIC
    ensures !e.state.initialized && e.state.update < PARTITION_MAX
  {
    e := Ota.SetBootPartition(m, p, o, target);
    info := e.state.info;
    assert e.log == [Torn(m), Saved(m, OtaWords(info))];
  }

  lemma EarlyRecord(m: Memory, info: OtaInfo)
    requires info.common.magic != BOOT_MAGIC
    ensures var m' := Saved(m, OtaWords(info));
            LoadCommon(m').magic != BOOT_MAGIC && Verifies(m', APP_A) == Verifies(m, APP_A)
  {
    SavedWord(m, OtaWords(info), 0);
    SavedConfined(m, OtaWords(info));
    RecordChangeVerifies(m, Saved(m, OtaWords(info)), APP_A);
  }

  lemma InitialisedLate(s: System) returns (s': System)
    requires s.On? && s.app == APP_B && s.protection == Unprotected
    requires !s.ota.initialized && s.ota.update < PARTITION_MAX && LoadCommon(s.mem).magic != BOOT_MAGIC
    ensures s' == Next(s, Do(Init)) && s'.On? && s'.app == APP_B && s'.protection == Unprotected
    ensures s'.ota.initialized && s'.ota.update == APP_B && Verifies(s'.mem, APP_A) == Verifies(s.mem, APP_A)
  {
    var e := DefaultedInit(s.mem, s.ota);
    s' := On(Final(s.mem, e.log), APP_B, e.state, Unprotected);
    Completed(s, Init, e);
  }

  lemma Completed(s: System, call: Call, e: Ota.Effect)
    requires s.On? && s.ota.update < PARTITION_MAX && e == Effect(s, call)
    ensures Next(s, Do(call)) == On(Final(s.mem, e.log), s.app, e.state, s.protection)
  {
  }

  lemma DefaultedInit(m: Memory, o: Ota.State) returns (e: Ota.Effect)
    requires !o.initialized && LoadCommon(m).magic != BOOT_MAGIC
    ensures e == Ota.Init(m, Unprotected, o)
    ensures e.state.initialized && e.state.update == APP_B && Verifies(Final(m, e.log), APP_A) == Verifies(m, APP_A)
  {
    e := Ota.Init(m, Unprotected, o);
    var info := Ota.Checksummed(OtaInfo(DefaultCommon, 0));
    assert e.log == [Torn(m), Saved(m, OtaWords(info))];
    SavedConfined(m, OtaWords(info));
    RecordChangeVerifies(m, Saved(m, OtaWords(info)), APP_A);
  }

  /** The first flash call of an update erases the first sector of the target partition. */
  lemma FirstErase(s: System, image: seq<Byte>) returns (first: Memory)
    requires s.On? && s.ota.initialized && s.ota.update == APP_B && s.protection == Unprotected && Ota.HasImage(image)
    ensures first == Erased(s.mem, StartOf(APP_B)) && Next(s, DoCut(StartUpdate(image), 1)) == Off(first)
  {
    first := Erased(s.mem, StartOf(APP_B));
    var log := Effect(s, StartUpdate(image)).log;
    assert log[0] == first;
    assert log[..1] == [first];
  }

  lemma UpdateCut(s: System, image: seq<Byte>) returns (s': System)
    requires s.On? && s.ota.initialized && s.ota.update == APP_B && s.protection == Unprotected && Ota.HasImage(image)
    requires !Verifies(s.mem, APP_A)
    ensures s' == Next(s, DoCut(StartUpdate(image), 1)) && s'.Off? && !Verifies(s'.mem, APP_A)
    ensures !Verifies(s'.mem, APP_B)
  {
    var first := FirstErase(s, image);
    s' := Off(first);
    assert SameOutside(s.mem, first, StartOf(APP_B), EndOf(APP_B));
    VerifiesFrame(s.mem, first, APP_A, StartOf(APP_B), EndOf(APP_B));
    assert first[StartOf(APP_B)] == 0xFF;
  }
}
