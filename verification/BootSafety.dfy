/**
 * No bricking, whatever the boot record holds: some image always verifies, the running image does, and a boot
 * launches nothing else. When a boot completes is a separate question, with its exact answer.
 */
module BootSafety {
  import opened Bytes
  import opened Flash
  import opened BootInfo
  import opened BootSystem
  import opened Wrappers
  import Bootloader
  import Ota

  /** The partitions that may hold an image. */
  predicate IsImage(p: Word) { p == BOOTLOADER || p == APP_A || p == APP_B }

  ghost predicate SomeImage(m: Memory) { Verifies(m, BOOTLOADER) || Verifies(m, APP_A) || Verifies(m, APP_B) }

  /** After `ota_init`: updates go to an application's partition that is not the running one. */
  ghost predicate Ready(o: Ota.State, app: Word) { o.initialized && IsApp(o.update) && o.update != app }

  /** Before `ota_init`: neither the record in flash nor one in RAM will send an update to the running partition. */
  ghost predicate Early(m: Memory, o: Ota.State, app: Word) {
    && !o.initialized && o.update < PARTITION_MAX && WellFormed(o.info.common)
    && (if LoadCommon(m).magic == BOOT_MAGIC then Other(LoadCommon(m).active) != app else app != APP_B)
    && (o.info.common.magic == BOOT_MAGIC ==> app != APP_B && Other(o.info.common.active) != app)
  }

  /** The running image verifies; of the boot record only that it does not point at it as the spare one. */
  ghost predicate Safe(s: System) {
    match s
    case Off(m) => SomeImage(m)
    case On(m, app, ota, _) => IsImage(app) && Verifies(m, app) && (Ready(ota, app) || Early(m, ota, app))
  }

  // ---- Flash changes that keep all images but one ----

  ghost predicate Keeps(m: Memory, m': Memory, q: App) {
    && Verifies(m', BOOTLOADER) == Verifies(m, BOOTLOADER)
    && Verifies(m', Other(q)) == Verifies(m, Other(q))
  }

  lemma KeepsApp(m: Memory, m': Memory, app: Word, q: App)
    requires IsImage(app) && Verifies(m, app) && q != app && Keeps(m, m', q)
    ensures Verifies(m', app) && SomeImage(m')
  {
  }

  lemma SpareKeeps(m: Memory, m': Memory, q: App)
    requires SameOutside(m, m', StartOf(q), EndOf(q))
    ensures Keeps(m, m', q)
  {
    VerifiesFrame(m, m', BOOTLOADER, StartOf(q), EndOf(q));
    VerifiesFrame(m, m', Other(q), StartOf(q), EndOf(q));
  }

  lemma RecordKeeps(m: Memory, m': Memory, q: App)
    requires SameOutside(m, m', DATA_START, DATA_START + SECTOR_SIZE)
    ensures Keeps(m, m', q)
  {
    RecordChangeVerifies(m, m', BOOTLOADER);
    RecordChangeVerifies(m, m', Other(q));
  }

  // ---- Library calls ----

  ghost predicate AllKept(m: Memory, log: seq<Memory>, q: App) { forall k :: 0 <= k < |log| ==> Keeps(m, log[k], q) }

  /** A save goes through an erased record at most, whatever the record. */
  lemma SaveKept(m: Memory, p: Protection, o: Ota.State, q: App)
    ensures AllKept(m, Ota.SaveInfo(m, p, o).log, q)
  {
    var info := Ota.Checksummed(o.info);
    TornIsInvalid(m);
    RecordKeeps(m, Torn(m), q);
    SavedConfined(m, OtaWords(info));
    RecordKeeps(m, Saved(m, OtaWords(info)), q);
  }

  lemma ImageKept(m: Memory, p: Protection, q: App, image: seq<Byte>)
    requires |image| <= APP_SIZE
    ensures AllKept(m, Ota.WriteImage(m, p, q, image).0, q)
  {
    var log := Ota.WriteImage(m, p, q, image).0;
    forall k | 0 <= k < |log| ensures Keeps(m, log[k], q) {
      WriteImageConfined(m, p, q, image, k);
      SpareKeeps(m, log[k], q);
    }
  }

  lemma FinalKept(m: Memory, log: seq<Memory>, q: App)
    requires AllKept(m, log, q)
    ensures Keeps(m, Final(m, log), q)
  {
  }

  lemma KeptThen(m: Memory, a: seq<Memory>, b: seq<Memory>, q: App)
    requires AllKept(m, a, q) && AllKept(Final(m, a), b, q)
    ensures AllKept(m, a + b, q)
  {
    FinalKept(m, a, q);
  }

  lemma UpdateKept(m: Memory, p: Protection, o: Ota.State, image: seq<Byte>)
    requires o.initialized && IsApp(o.update)
    ensures AllKept(m, Ota.StartUpdate(m, p, o, image).log, o.update)
  {
    var q := o.update;
    if Ota.HasImage(image) {
      var (log, err) := Ota.WriteImage(m, p, q, image);
      ImageKept(m, p, q, image);
      if err == Ota.OK {
        var o1 := o.(progress := Ota.Verifying);
        var o2 := o1.(info := o1.info.(common := o1.info.common.(pending := q, confirmed := false)));
        SaveKept(Final(m, log), p, o2, q);
        KeptThen(m, log, Ota.SaveInfo(Final(m, log), p, o2).log, q);
      }
    }
  }

  lemma ChunkKept(m: Memory, p: Protection, o: Ota.State, data: seq<Byte>, offset: Word)
    requires o.initialized && IsApp(o.update) && offset + |data| < 0x1_0000_0000
    ensures AllKept(m, Ota.WriteChunk(m, p, o, data, offset).log, o.update)
  {
    var e := Ota.WriteChunk(m, p, o, data, offset);
    if e.error == Ota.OK {
      Ota.ChunkConfined(m, p, o, data, offset);
      SpareKeeps(m, e.log[0], o.update);
    }
  }

  lemma PendKept(m: Memory, p: Protection, o: Ota.State, target: Word, q: App)
    ensures AllKept(m, Ota.Pend(m, p, o, target).log, q)
  {
    SaveKept(m, p, o.(info := o.info.(common := o.info.common.(pending := target, confirmed := false))), q);
  }

  lemma RollbackKept(m: Memory, p: Protection, o: Ota.State, q: App)
    requires o.initialized
    ensures AllKept(m, Ota.Rollback(m, p, o).log, q)
  {
    var c, other := o.info.common, Other(o.running);
    SaveKept(m, p, o.(info := o.info.(common :=
      c.(active := other, pending := other, confirmed := true, rollbackCount := Increment(c.rollbackCount)))), q);
  }

  lemma ConfirmKept(m: Memory, p: Protection, o: Ota.State, q: App)
    requires o.initialized
    ensures AllKept(m, Ota.Confirm(m, p, o).log, q)
  {
    SaveKept(m, p, o.(info := o.info.(common := o.info.common.(confirmed := true, active := o.running))), q);
  }

  lemma FinalizeKept(m: Memory, p: Protection, o: Ota.State, q: App)
    ensures AllKept(m, Ota.Finalize(m, p, o).log, q)
  {
    PendKept(m, p, o, o.update, q);
  }

  lemma SelectKept(m: Memory, p: Protection, o: Ota.State, target: Word, q: App)
    ensures AllKept(m, Ota.SetBootPartition(m, p, o, target).log, q)
  {
    PendKept(m, p, o, target, q);
  }

  /** Every flash content of a call by an initialised library keeps the running image and the bootloader. */
  lemma CallKept(s: System, call: Call, log: seq<Memory>)
    requires s.On? && Ready(s.ota, s.app) && Disciplined(s, DoCut(call, 0)) && log == Effect(s, call).log
    ensures AllKept(s.mem, log, s.ota.update)
  {
    var m, p, o, q := s.mem, s.protection, s.ota, s.ota.update;
    match call
    case Init =>
    case StartUpdate(image) => UpdateKept(m, p, o, image);
    case WriteChunk(data, offset) => ChunkKept(m, p, o, data, offset);
    case Abort =>
    case Finalize => FinalizeKept(m, p, o, q);
    case SetBootPartition(target) => SelectKept(m, p, o, target, q);
    case Rollback => RollbackKept(m, p, o, q);
    case Confirm => ConfirmKept(m, p, o, q);
  }

  lemma SaveReady(m: Memory, p: Protection, o: Ota.State, app: Word)
    requires Ready(o, app)
    ensures Ready(Ota.SaveInfo(m, p, o).state, app)
  {
  }

  lemma UpdateReady(m: Memory, p: Protection, o: Ota.State, app: Word, image: seq<Byte>)
    requires Ready(o, app)
    ensures Ready(Ota.StartUpdate(m, p, o, image).state, app)
  {
    if Ota.HasImage(image) {
      var (log, err) := Ota.WriteImage(m, p, o.update, image);
      if err == Ota.OK {
        var o1 := o.(progress := Ota.Verifying);
        SaveReady(Final(m, log), p,
          o1.(info := o1.info.(common := o1.info.common.(pending := o.update, confirmed := false))), app);
      }
    }
  }

  lemma StaysReady(s: System, call: Call, o: Ota.State)
    requires s.On? && Ready(s.ota, s.app) && o == Effect(s, call).state
    ensures Ready(o, s.app)
  {
    if call.StartUpdate? { UpdateReady(s.mem, s.protection, s.ota, s.app, call.image); }
  }

  // ---- Library calls before ota_init ----

  /** What a save makes of the record: erased, or the one in RAM. */
  lemma EarlySaved(m: Memory, p: Protection, o: Ota.State, q: App) returns (e: Ota.Effect)
    requires WellFormed(o.info.common)
    ensures e == Ota.SaveInfo(m, p, o) && AllKept(m, e.log, q) && (e.error == Ota.OK ==> e.log != [])
    ensures e.log != [] ==>
      || LoadCommon(Final(m, e.log)) == o.info.common
      || (e.error != Ota.OK && LoadCommon(Final(m, e.log)).magic != BOOT_MAGIC)
  {
    e := Ota.SaveInfo(m, p, o);
    SaveKept(m, p, o, q);
    TornIsInvalid(m);
    SavedCommon(m, o.info.common, [Ota.Checksummed(o.info).crc]);
  }

  lemma EarlyInitSafe(m: Memory, p: Protection, o: Ota.State, app: Word, q: App) returns (e: Ota.Effect)
    requires Early(m, o, app)
    ensures e == Ota.Init(m, p, o) && AllKept(m, e.log, q)
    ensures Ready(e.state, app) || Early(Final(m, e.log), e.state, app)
  {
    e := Ota.Init(m, p, o);
    LoadedWellFormed(m);
    if LoadCommon(m).magic != BOOT_MAGIC {
      var save := EarlySaved(m, p, o.(info := OtaInfo(DefaultCommon, 0)), q);
    }
  }

  /** A selection leaves the library fit for `ota_init`, except when APP_B runs and the record is rewritten. */
  lemma EarlySelectionSafe(m: Memory, p: Protection, o: Ota.State, app: Word, target: Word, q: App)
    returns (e: Ota.Effect)
    requires Early(m, o, app)
    ensures e == Ota.SetBootPartition(m, p, o, target) && AllKept(m, e.log, q)
    ensures Early(Final(m, e.log), e.state, app) <==> app != APP_B || e.log == []
    ensures !e.state.initialized
  {
    e := Ota.SetBootPartition(m, p, o, target);
    if target < PARTITION_MAX {
      var o1 := o.(info := o.info.(common := o.info.common.(pending := target, confirmed := false)));
      var save := EarlySaved(m, p, o1, q);
    }
  }

  lemma EarlyCallSafe(s: System, call: Call, q: App) returns (e: Ota.Effect)
    requires s.On? && Early(s.mem, s.ota, s.app)
    ensures e == Effect(s, call) && AllKept(s.mem, e.log, q)
    ensures Disciplined(s, Do(call)) ==> Ready(e.state, s.app) || Early(Final(s.mem, e.log), e.state, s.app)
  {
    if call.Init? {
      e := EarlyInitSafe(s.mem, s.protection, s.ota, s.app, q);
    } else if call.SetBootPartition? {
      e := EarlySelectionSafe(s.mem, s.protection, s.ota, s.app, call.target, q);
    } else {
      EarlyOther(s, call);
      e := Effect(s, call);
    }
  }

  // ---- Any library call ----

  /** Flash contents of a call keep every image but one, which is not the running one. */
  lemma CallKeeps(s: System, call: Call) returns (e: Ota.Effect, q: App)
    requires Safe(s) && s.On? && Disciplined(s, DoCut(call, 0))
    ensures s.ota.update < PARTITION_MAX && e == Effect(s, call) && q != s.app && AllKept(s.mem, e.log, q)
    ensures Disciplined(s, Do(call)) ==> Ready(e.state, s.app) || Early(Final(s.mem, e.log), e.state, s.app)
  {
    if s.ota.initialized {
      e, q := Effect(s, call), s.ota.update;
      CallKept(s, call, e.log);
      StaysReady(s, call, e.state);
    } else {
      q := Other(s.app);
      e := EarlyCallSafe(s, call, q);
    }
  }

  /**
   * A library call, complete or cut after any number of flash calls: the running image still verifies, the bootloader's
   * partition is not touched, and a complete disciplined call leaves a state from which this holds again.
   */
  lemma CallSafe(s: System, call: Call, calls: nat)
    requires Safe(s) && s.On? && Disciplined(s, DoCut(call, calls))
    ensures Disciplined(s, Do(call)) ==> Safe(Next(s, Do(call)))
    ensures Safe(Next(s, DoCut(call, calls)))
    ensures var done, cut := Next(s, Do(call)).mem, Next(s, DoCut(call, calls)).mem;
            && Verifies(done, s.app) && Verifies(cut, s.app)
            && Verifies(done, BOOTLOADER) == Verifies(cut, BOOTLOADER) == Verifies(s.mem, BOOTLOADER)
  {
    var e, q := CallKeeps(s, call);
    Completed(s, call, e);
    CutShort(s, call, calls, e);
    FinalKept(s.mem, e.log, q);
    KeepsApp(s.mem, Final(s.mem, e.log), s.app, q);
    CutKept(s.mem, e.log, calls, q);
    KeepsApp(s.mem, Cut(s.mem, e.log, calls), s.app, q);
  }

  // ---- A boot selection before ota_init ----

  /** Before `ota_init` a boot selection keeps the device safe if and only if it is disciplined. */
  lemma SelectionSafeIff(s: System, target: Word)
    requires Safe(s) && s.On? && !s.ota.initialized
    ensures Safe(Next(s, Do(SetBootPartition(target)))) <==> Disciplined(s, Do(SetBootPartition(target)))
  {
    var q := Other(s.app);
    var e := EarlySelectionSafe(s.mem, s.protection, s.ota, s.app, target, q);
    Completed(s, SetBootPartition(target), e);
    FinalKept(s.mem, e.log, q);
    KeepsApp(s.mem, Final(s.mem, e.log), s.app, q);
  }

  lemma SelectedFirst(s: System, target: Word) returns (s1: System)
    requires Safe(s) && s.On? && !s.ota.initialized && Effect(s, SetBootPartition(target)).error == Ota.OK
    ensures s1 == Next(s, Do(SetBootPartition(target))) && s1.On? && s1.app == s.app
    ensures !s1.ota.initialized && s1.ota.update < PARTITION_MAX
    ensures LoadCommon(s1.mem).magic == BOOT_MAGIC ==> s.app != APP_B && Other(LoadCommon(s1.mem).active) != s.app
  {
    var m, p, o := s.mem, s.protection, s.ota;
    var o1 := o.(info := o.info.(common := o.info.common.(pending := target, confirmed := false)));
    var e := EarlySaved(m, p, o1, APP_A);
    Completed(s, SetBootPartition(target), e);
    s1 := On(Final(m, e.log), s.app, e.state, p);
  }

  lemma InitFollows(s: System)
    requires s.On? && !s.ota.initialized && s.ota.update < PARTITION_MAX
    requires Ota.Init(s.mem, s.protection, s.ota).error == Ota.OK
    requires LoadCommon(s.mem).magic == BOOT_MAGIC ==> s.app != APP_B && Other(LoadCommon(s.mem).active) != s.app
    ensures Next(s, Do(Init)).ota.update == s.app <==> s.app == APP_B
  {
    Completed(s, Init, Ota.Init(s.mem, s.protection, s.ota));
  }

  /**
   * A selection before `ota_init` and then `ota_init`, both successful: the library takes the running partition for the
   * spare one, so that the next update would erase it, if and only if APP_B is running.
   */
  lemma SelectionThenInit(s: System, target: Word)
    requires Safe(s) && s.On? && !s.ota.initialized && Effect(s, SetBootPartition(target)).error == Ota.OK
    requires var s1 := Next(s, Do(SetBootPartition(target))); Ota.Init(s1.mem, s1.protection, s1.ota).error == Ota.OK
    ensures Next(Next(s, Do(SetBootPartition(target))), Do(Init)).ota.update == s.app <==> s.app == APP_B
  {
    var s1 := SelectedFirst(s, target);
    InitFollows(s1);
  }

  lemma CutKept(m: Memory, log: seq<Memory>, calls: nat, q: App)
    requires AllKept(m, log, q)
    ensures Keeps(m, Cut(m, log, calls), q)
  {
  }

  // ---- The bootloader, from any record ----

  /** A run launches only what passes, and has then saved it as active. */
  ghost predicate Launches(v: Bootloader.Images, run: Bootloader.Outcome) {
    run.launched.Some? ==>
      && Bootloader.Passes(v, run.launched.value) && run.saves != []
      && var c := run.saves[|run.saves| - 1].common;
      WellFormed(c) && c.magic == BOOT_MAGIC && c.active == run.launched.value
  }

  lemma LaunchPasses(v: Bootloader.Images, i: LoaderInfo)
    requires WellFormed(i.common)
    ensures Launches(v, Bootloader.Run(v, i))
  {
    var b := Bootloader.SelectPending(v, Bootloader.LoadOrDefault(i));
    assert b.info.common.magic == BOOT_MAGIC && WellFormed(b.info.common);
    if Bootloader.CountAttempt(b).Some? {
      var b1 := Bootloader.CountAttempt(b).value;
      assert b1.info.common.magic == BOOT_MAGIC && WellFormed(b1.info.common);
    }
  }

  /** A complete boot: flash keeps its images, and what is launched verifies and is the saved active partition. */
  lemma BootSafe(m: Memory)
    requires SomeImage(m)
    ensures Safe(Next(Off(m), Boot)) && Bootloader.ImagesOf(Next(Off(m), Boot).mem) == Bootloader.ImagesOf(m)
    ensures var s' := Next(Off(m), Boot); s'.On? ==> Verifies(s'.mem, s'.app) && LoadCommon(s'.mem).active == s'.app
  {
    LoadedWellFormed(m);
    LaunchPasses(Bootloader.ImagesOf(m), LoadLoader(m));
    RunSafe(m, BootRun(m));
  }

  lemma RunSafe(m: Memory, run: Bootloader.Outcome)
    requires SomeImage(m) && Launches(Bootloader.ImagesOf(m), run)
    ensures var s' := AfterBoot(m, run);
            && Safe(s') && Bootloader.ImagesOf(s'.mem) == Bootloader.ImagesOf(m)
            && (s'.On? ==> LoadCommon(s'.mem).active == s'.app)
  {
    Bootloader.FlashAfterImages(m, run.saves);
    if run.launched.Some? { Bootloader.FlashAfterRecord(m, run.saves); }
  }

  lemma BootCutSafe(m: Memory, calls: nat)
    requires SomeImage(m)
    ensures Safe(Next(Off(m), BootCut(calls)))
    ensures Bootloader.ImagesOf(Next(Off(m), BootCut(calls)).mem) == Bootloader.ImagesOf(m)
  {
    var run := BootRun(m);
    BootSteps(m, run, calls);
    CutImages(m, run.saves, calls);
  }

  lemma CutImages(m: Memory, saves: seq<LoaderInfo>, calls: nat)
    ensures Bootloader.ImagesOf(Cut(m, Bootloader.FlashLog(m, saves), calls)) == Bootloader.ImagesOf(m)
  {
    var log := Bootloader.FlashLog(m, saves);
    var n := if calls < |log| then calls else |log|;
    if n > 0 {
      LogImages(m, saves, n - 1);
      assert Cut(m, log, calls) == log[n - 1];
    }
  }

  lemma LogImages(m: Memory, saves: seq<LoaderInfo>, k: nat)
    requires k < |Bootloader.FlashLog(m, saves)|
    ensures Bootloader.ImagesOf(Bootloader.FlashLog(m, saves)[k]) == Bootloader.ImagesOf(m)
  {
    if saves != [] { Bootloader.FlashLogAt(m, saves, 0); }
    Bootloader.FlashLogAt(m, saves, k);
    var before := Bootloader.FlashAfter(m, saves[..k / 2]);
    Bootloader.FlashAfterImages(m, saves[..k / 2]);
    TornIsInvalid(before);
    Bootloader.RecordChangeImages(before, Torn(before));
    Bootloader.FlashAfterImages(m, saves[..k / 2 + 1]);
  }

  // ---- Whole runs ----

  lemma NextSafe(s: System, e: Event)
    requires Safe(s) && Disciplined(s, e)
    ensures Safe(Next(s, e)) && Verifies(Next(s, e).mem, BOOTLOADER) == Verifies(s.mem, BOOTLOADER)
  {
    match e
    case Boot => if s.Off? { BootSafe(s.mem); }
    case BootCut(calls) => if s.Off? { BootCutSafe(s.mem, calls); }
    case Do(call) => if s.On? { CallSafe(s, call, 0); }
    case DoCut(call, calls) => if s.On? { CallSafe(s, call, calls); }
    case Protect(_) =>
    case Reset =>
  }

  /**
   * No bricking: from any boot record, along every disciplined run of calls, boots, resets and power cuts, some image
   * verifies and the running one does; if the bootloader's own partition holds no image, it is an application's.
   */
  lemma {:induction false} NeverBricked(s: System, events: seq<Event>)
    requires Safe(s) && DisciplinedRun(s, events)
    ensures Safe(Run(s, events)) && SomeImage(Run(s, events).mem)
    ensures !Verifies(s.mem, BOOTLOADER) ==> Verifies(Run(s, events).mem, APP_A) || Verifies(Run(s, events).mem, APP_B)
    decreases |events|
  {
    if events != [] {
      NextSafe(s, events[0]);
      NeverBricked(Next(s, events[0]), events[1..]);
    }
  }

  // ---- When a boot completes ----

  /** The partition that a boot tries first: a pending update that passes, else the active one. */
  function Chosen(v: Bootloader.Images, c: Common): Word {
    if c.pending != c.active && !c.confirmed && Bootloader.Passes(v, c.pending) then c.pending else c.active
  }

  /** The boot uses up the last attempt of an unconfirmed selection. */
  predicate Exhausted(i: LoaderInfo) {
    !i.common.confirmed && i.common.pending == i.common.active && Increment(i.attempts) >= Bootloader.MAX_BOOT_ATTEMPTS
  }

  /** Without a readable record any application will do; without rollback only the choice, with attempts left. */
  predicate Completes(v: Bootloader.Images, i: LoaderInfo) {
    if i.common.magic != BOOT_MAGIC then v.appA || v.appB
    else if !i.common.rollbackEnabled then !Exhausted(i) && Bootloader.Passes(v, Chosen(v, i.common))
    else
      var a := if Exhausted(i) then Other(i.common.active) else Chosen(v, i.common);
      Bootloader.Passes(v, a) || Bootloader.Passes(v, Other(a))
  }

  /** From any record and any images, a boot launches something if and only if it completes in this sense. */
  lemma BootsIff(m: Memory)
    ensures Next(Off(m), Boot).On? <==> Completes(Bootloader.ImagesOf(m), LoadLoader(m))
  {
    RunCompletes(Bootloader.ImagesOf(m), LoadLoader(m));
  }

  lemma RunCompletes(v: Bootloader.Images, i: LoaderInfo)
    ensures Bootloader.Run(v, i).launched.Some? <==> Completes(v, i)
  {
    var b := Bootloader.SelectPending(v, Bootloader.LoadOrDefault(i));
    if i.common.magic == BOOT_MAGIC {
      assert b.info.common.active == Chosen(v, i.common) && b.info.common.rollbackEnabled == i.common.rollbackEnabled;
    }
  }

  // ---- What a boot launches and counts ----

  /** The record a boot goes by. */
  function Effective(i: LoaderInfo): LoaderInfo {
    if i.common.magic == BOOT_MAGIC then i else LoaderInfo(DefaultCommon, 0, 0, 0)
  }

  /** The first choice: the other application if attempts are used up, else the pending or the active partition. */
  function FirstChoice(v: Bootloader.Images, i: LoaderInfo): Word {
    if Exhausted(i) then Other(i.common.active) else Chosen(v, i.common)
  }

  /** From any record and images: the first choice if it passes, else, with rollback, its alternative. */
  lemma BootLaunches(m: Memory)
    requires Next(Off(m), Boot).On?
    ensures var v, i := Bootloader.ImagesOf(m), Effective(LoadLoader(m));
            Next(Off(m), Boot).app ==
              if Bootloader.Passes(v, FirstChoice(v, i)) then FirstChoice(v, i) else Other(FirstChoice(v, i))
  {
    RunLaunches(Bootloader.ImagesOf(m), LoadLoader(m));
  }

  lemma RunLaunches(v: Bootloader.Images, i: LoaderInfo)
    requires Bootloader.Run(v, i).launched.Some?
    ensures var a := FirstChoice(v, Effective(i));
            Bootloader.Run(v, i).launched == Some(if Bootloader.Passes(v, a) then a else Other(a))
  {
    var b := Bootloader.SelectPending(v, Bootloader.LoadOrDefault(i));
    assert Bootloader.LoadOrDefault(i).info == Effective(i);
    assert b.info.common.active == Chosen(v, Effective(i).common);
  }

  /** How often a boot switches to the alternative application. */
  function Rollbacks(v: Bootloader.Images, i: LoaderInfo): nat {
    (if Exhausted(i) then 1 else 0) + (if Bootloader.Passes(v, FirstChoice(v, i)) then 0 else 1)
  }

  /** A 32-bit counter after n more. */
  function Plus(w: Word, n: nat): Word {
    var sum: int := w + n;
    sum % 0x1_0000_0000
  }

  lemma PlusTwo(w: Word)
    ensures Plus(w, 0) == w && Plus(w, 1) == Increment(w) && Plus(w, 2) == Increment(Increment(w))
  {
    PlusIs(w, 0);
    PlusIs(w, 1);
    PlusIs(w, 2);
    PlusIs(Increment(w), 1);
  }

  lemma PlusIs(w: Word, n: nat)
    requires n < 0x1_0000_0000
    ensures Plus(w, n) == if w + n < 0x1_0000_0000 then w + n else w + n - 0x1_0000_0000
  {
  }

  /** The attempt counter: restarted by a rollback, started by a new selection, else counted while unconfirmed. */
  function AttemptsAfter(v: Bootloader.Images, i: LoaderInfo): Word {
    if Rollbacks(v, i) > 0 then 0
    else if i.common.confirmed then i.attempts
    else if i.common.pending == i.common.active then Increment(i.attempts)
    else if Bootloader.Passes(v, i.common.pending) then 1
    else i.attempts
  }

  /** A boot that launches something counts itself once, and every switch to the alternative application. */
  lemma RunCounts(v: Bootloader.Images, i: LoaderInfo)
    requires Bootloader.Run(v, i).launched.Some?
    ensures var run, c := Bootloader.Run(v, i), Effective(i).common;
            && run.saves != []
            && var c' := run.saves[|run.saves| - 1].common;
            && c'.bootCount == Increment(c.bootCount)
            && c'.rollbackCount == Plus(c.rollbackCount, Rollbacks(v, Effective(i)))
            && c'.rollbackEnabled == c.rollbackEnabled
            && run.saves[|run.saves| - 1].attempts == AttemptsAfter(v, Effective(i))
  {
    var b := Bootloader.SelectPending(v, Bootloader.LoadOrDefault(i));
    assert Bootloader.LoadOrDefault(i).info == Effective(i);
    assert b.info.common.active == Chosen(v, Effective(i).common);
    PlusTwo(Effective(i).common.rollbackCount);
  }
}
