/**
 * Trial boots: an unconfirmed update is launched at most twice,
 * after which the previous application is restored for good.
 */
module TrialBoots {
  import opened Bytes
  import opened Flash
  import opened BootInfo
  import opened BootSystem
  import opened Wrappers
  import Bootloader
  import Ota

  // ---- Phases of the boot record during a trial of application `trial` ----

  ghost predicate Readable(i: LoaderInfo) {
    WellFormed(i.common) && i.common.magic == BOOT_MAGIC && i.common.rollbackEnabled
  }

  /** The update is pending. */
  ghost predicate Armed(i: LoaderInfo, trial: App) {
    Readable(i) && i.common.active == Other(trial) && i.common.pending == trial && !i.common.confirmed
  }

  /** The update is selected and has used `n` attempts. */
  ghost predicate Trying(i: LoaderInfo, trial: App, n: nat) {
    Readable(i) && i.common.active == trial && i.common.pending == trial && !i.common.confirmed && i.attempts == n
  }

  /** The previous application is selected and confirmed. */
  ghost predicate Restored(i: LoaderInfo, trial: App) {
    Readable(i) && i.common.active == Other(trial) && i.common.confirmed
  }

  /** A torn record, which the bootloader replaces by its default, in favour of APP_A. */
  ghost predicate TornRecord(i: LoaderInfo) { WellFormed(i.common) && i.common.magic != BOOT_MAGIC }

  /** How many more launches of `trial` the record allows; 3 when it is not a record of the trial. */
  ghost function LaunchesLeft(i: LoaderInfo, trial: App): nat {
    if Armed(i, trial) || Trying(i, trial, 0) then 2
    else if Trying(i, trial, 1) then 1
    else if Trying(i, trial, 2) || Restored(i, trial) || (TornRecord(i) && trial == APP_B) then 0
    else 3
  }

  ghost predicate InTrial(i: LoaderInfo, trial: App) { Trying(i, trial, i.attempts) }

  // ---- One boot ----

  /** A record that allows at most `budget` launches, and tries only an image that passes. */
  ghost predicate Allowed(v: Bootloader.Images, i: LoaderInfo, trial: App, budget: nat) {
    LaunchesLeft(i, trial) <= budget <= 2 && (InTrial(i, trial) ==> Bootloader.Passes(v, trial))
  }

  ghost predicate AllAllowed(v: Bootloader.Images, saves: seq<LoaderInfo>, trial: App, budget: nat) {
    forall k :: 0 <= k < |saves| ==> Allowed(v, saves[k], trial, budget)
  }

  /** Every record saved so far, and the one in RAM, is allowed. */
  ghost predicate Within(v: Bootloader.Images, b: Bootloader.Boot, trial: App, budget: nat) {
    Allowed(v, b.info, trial, budget) && AllAllowed(v, b.saves, trial, budget)
  }

  lemma SelectWithin(v: Bootloader.Images, i: LoaderInfo, trial: App)
    requires Allowed(v, i, trial, 2)
    ensures var b := Bootloader.SelectPending(v, Bootloader.LoadOrDefault(i));
            Within(v, b, trial, LaunchesLeft(i, trial)) && (Restored(b.info, trial) || InTrial(b.info, trial))
  {
    if TornRecord(i) {
      assert Restored(Bootloader.LoadOrDefault(i).info, trial);
    } else {
      assert Bootloader.LoadOrDefault(i) == Bootloader.Boot([], i);
    }
    if Armed(i, trial) {
      assert Trying(i.(common := i.common.(active := i.common.pending), attempts := 0), trial, 0);
      assert Restored(i.(common := i.common.(pending := i.common.active, confirmed := true)), trial);
    }
  }

  /** Counting an attempt pays for the launch, or restores the previous application. */
  lemma CountWithin(v: Bootloader.Images, b: Bootloader.Boot, trial: App, budget: nat)
    requires Within(v, b, trial, budget) && (Restored(b.info, trial) || InTrial(b.info, trial))
    ensures Bootloader.CountAttempt(b).Some?
    ensures var b1 := Bootloader.CountAttempt(b).value;
            && Within(v, b1, trial, budget)
            && (Restored(b1.info, trial) || (InTrial(b1.info, trial) && LaunchesLeft(b1.info, trial) < budget))
  {
    var info := b.info.(attempts := Increment(b.info.attempts));
    if InTrial(b.info, trial) {
      assert Trying(b.info, trial, 0) || Trying(b.info, trial, 1) || Trying(b.info, trial, 2);
      if b.info.attempts < 2 {
        assert Trying(info, trial, b.info.attempts + 1);
      } else {
        assert Restored(Bootloader.RolledBack(info), trial);
      }
    }
  }

  /** The two ways a boot during the trial can end. */
  ghost predicate Ended(run: Bootloader.Outcome, trial: App, budget: nat) {
    run.saves != [] &&
    var i := run.saves[|run.saves| - 1];
    || (run.launched == Some(Other(trial)) && Restored(i, trial))
    || (run.launched == Some(trial) && InTrial(i, trial) && LaunchesLeft(i, trial) < budget)
  }

  lemma JumpWithin(v: Bootloader.Images, b: Bootloader.Boot, trial: App, budget: nat)
    requires Within(v, b, trial, budget) && Bootloader.Passes(v, b.info.common.active)
    requires Restored(b.info, trial) || (InTrial(b.info, trial) && LaunchesLeft(b.info, trial) < budget)
    ensures var run := Bootloader.Jump(v, b);
            Ended(run, trial, budget) && AllAllowed(v, run.saves, trial, budget)
  {
    var i := Bootloader.CountBoot(b).info;
    assert Restored(b.info, trial) ==> Restored(i, trial);
    assert InTrial(b.info, trial) ==> Trying(i, trial, b.info.attempts);
  }

  /**
   * One boot during the trial, with the previous application intact: it launches the trial application,
   * which costs one of the launches left, or it restores the previous one;
   * every record it saves on the way allows no more launches than the one it started from.
   */
  lemma TrialRun(v: Bootloader.Images, i: LoaderInfo, trial: App)
    requires Allowed(v, i, trial, 2) && Bootloader.Passes(v, Other(trial))
    ensures var run, budget := Bootloader.Run(v, i), LaunchesLeft(i, trial);
            Ended(run, trial, budget) && AllAllowed(v, run.saves, trial, budget)
  {
    var budget := LaunchesLeft(i, trial);
    SelectWithin(v, i, trial);
    var b := Bootloader.SelectPending(v, Bootloader.LoadOrDefault(i));
    CountWithin(v, b, trial, budget);
    JumpWithin(v, Bootloader.CountAttempt(b).value, trial, budget);
  }

  function Last(run: Bootloader.Outcome): LoaderInfo
    requires run.saves != []
  {
    run.saves[|run.saves| - 1]
  }

  lemma FirstTrial(v: Bootloader.Images, i: LoaderInfo, trial: App)
    requires Armed(i, trial) && Bootloader.Passes(v, trial)
    ensures var run := Bootloader.Run(v, i);
            run.launched == Some(trial) && run.saves != [] && Trying(Last(run), trial, 1)
  {
    var b := Bootloader.SelectPending(v, Bootloader.LoadOrDefault(i));
    assert Trying(b.info, trial, 0);
    assert Trying(Bootloader.CountAttempt(b).value.info, trial, 1);
  }

  lemma NextTrial(v: Bootloader.Images, i: LoaderInfo, trial: App)
    requires Trying(i, trial, 1) && Bootloader.Passes(v, trial)
    ensures var run := Bootloader.Run(v, i);
            run.launched == Some(trial) && run.saves != [] && Trying(Last(run), trial, 2)
  {
    var b := Bootloader.SelectPending(v, Bootloader.LoadOrDefault(i));
    assert b == Bootloader.Boot([], i);
    assert Trying(Bootloader.CountAttempt(b).value.info, trial, 2);
  }

  // ---- An update arms the trial ----

  /** The update returned OK and its record is not protected, so that it was saved. */
  ghost predicate Updated(s: System, image: seq<Byte>) {
    && Inv(s) && s.On? && s.ota.initialized && Effect(s, StartUpdate(image)).error == Ota.OK
    && EraseError(s.protection, DATA_START) == Ok && WriteError(s.protection, DATA_START, 28) == Ok
  }

  /** Flash after such an update: the image m that was written, and over it the record. */
  lemma UpdateSaves(s: System, image: seq<Byte>, s1: System) returns (m: Memory, info: OtaInfo)
    requires Updated(s, image) && s1 == Next(s, Do(StartUpdate(image)))
    ensures s1.mem == Saved(m, OtaWords(info))
    ensures Ota.ImageError(Ota.Header(m, Other(s.app))) == Ota.OK
    ensures WellFormed(info.common) && info.common == s.ota.info.common.(pending := Other(s.app), confirmed := false)
  {
    var o, q := s.ota, s.ota.update;
    var (log, err) := Ota.WriteImage(s.mem, s.protection, q, image);
    m := Final(s.mem, log);
    var e := Ota.Pend(m, s.protection, o.(progress := Ota.Verifying), q);
    info := e.state.info;
    UpdateEffect(s, image, log, e);
  }

  lemma UpdateEffect(s: System, image: seq<Byte>, log: seq<Memory>, e: Ota.Effect)
    requires Updated(s, image) && (log, Ota.OK) == Ota.WriteImage(s.mem, s.protection, s.ota.update, image)
    requires e == Ota.Pend(Final(s.mem, log), s.protection, s.ota.(progress := Ota.Verifying), s.ota.update)
    ensures Next(s, Do(StartUpdate(image))).mem == Saved(Final(s.mem, log), OtaWords(e.state.info))
  {
    assert Effect(s, StartUpdate(image)).log == log + e.log;
    Completed(s, StartUpdate(image), Effect(s, StartUpdate(image)));
  }

  /** What the record says to the bootloader. */
  lemma ArmedIff(m: Memory, info: OtaInfo, trial: App)
    requires GoodCommon(info.common) && info.common.pending == trial && !info.common.confirmed
    ensures Armed(LoadLoader(Saved(m, OtaWords(info))), trial) <==> info.common.active == Other(trial)
  {
    OtaSaveSeenByLoader(m, info);
  }

  /** The image is not touched by saving the record. */
  lemma ImageStays(m: Memory, info: OtaInfo, q: App)
    requires Ota.ImageError(Ota.Header(m, q)) == Ota.OK
    ensures Verifies(Saved(m, OtaWords(info)), q)
  {
    HeaderVerifies(m, q);
    SavedConfined(m, OtaWords(info));
    RecordChangeVerifies(m, Saved(m, OtaWords(info)), q);
  }

  /**
   * An update that returned OK and saved its record leaves an image that verifies, and its trial armed
   * exactly when the record's active partition was the running one.
   */
  lemma UpdateArms(s: System, image: seq<Byte>, s1: System)
    requires Updated(s, image) && s1 == Next(s, Do(StartUpdate(image)))
    ensures Verifies(s1.mem, Other(s.app))
    ensures Armed(LoadLoader(s1.mem), Other(s.app)) <==> s.ota.info.common.active == s.ota.running
  {
    var m, info := UpdateSaves(s, image, s1);
    ImageStays(m, info, Other(s.app));
    ArmedIff(m, info, Other(s.app));
  }

  lemma HeaderVerifies(m: Memory, q: App)
    requires Ota.ImageError(Ota.Header(m, q)) == Ota.OK
    ensures Verifies(m, q)
  {
    var h := Ota.Header(m, q);
    assert forall k :: 0 <= k < HEADER_SIZE ==> h[k] == m[StartOf(q) + k];
  }

  // ---- Whole runs ----

  /** Library calls that do not save the boot record. */
  predicate NoSave(s: System, call: Call)
    requires s.On? && s.ota.update < PARTITION_MAX
  {
    match call
    case Init => true
    case Abort => true
    case WriteChunk(_, _) => true
    case StartUpdate(image) =>
      !Ota.HasImage(image) || Ota.WriteImage(s.mem, s.protection, s.ota.update, image).1 != Ota.OK
    case _ => false
  }

  /** Power is lost between the erase and the write of a boot-record save. */
  predicate InsideSave(m: Memory, calls: nat) { calls % 2 == 1 && calls < 2 * |BootRun(m).saves| }

  /** No further OTA save; on trial of APP_A, no power loss inside a boot-record save either. */
  predicate Quiet(s: System, e: Event, trial: App) {
    match e
    case BootCut(calls) => trial == APP_B || s.On? || !InsideSave(s.mem, calls)
    case Do(call) => s.Off? || (s.ota.update < PARTITION_MAX && NoSave(s, call))
    case DoCut(call, _) => s.Off? || (s.ota.update < PARTITION_MAX && NoSave(s, call))
    case _ => true
  }

  /** A run that is disciplined, quiet, and never damages the previous application. */
  ghost predicate TrialEvents(s: System, events: seq<Event>, trial: App)
    decreases |events|
  {
    && Verifies(s.mem, Other(trial))
    && (events != [] ==>
      Disciplined(s, events[0]) && Quiet(s, events[0], trial) && TrialEvents(Next(s, events[0]), events[1..], trial))
  }

  /** The applications launched along a run. */
  function Launches(s: System, events: seq<Event>): seq<Word>
    decreases |events|
  {
    if events == [] then []
    else
      var s' := Next(s, events[0]);
      (if s.Off? && s'.On? then [s'.app] else []) + Launches(s', events[1..])
  }

  ghost predicate AllAre(l: seq<Word>, app: App) { forall k :: 0 <= k < |l| ==> l[k] == app }

  /** At most `budget` launches of the trial application, then only the previous one. */
  ghost predicate Bounded(l: seq<Word>, trial: App, budget: nat) {
    AllAre(l, Other(trial)) || (l != [] && l[0] == trial && budget > 0 && Bounded(l[1..], trial, budget - 1))
  }

  /** Until `ota_init` the record that the boot saved is still there. */
  ghost predicate Recorded(s: System)
    requires s.On?
  {
    s.ota.initialized || LoadCommon(s.mem).magic == BOOT_MAGIC
  }

  ghost predicate TrialInv(s: System, trial: App) {
    var i := LoadLoader(s.mem);
    && Inv(s) && LaunchesLeft(i, trial) <= 2 && (InTrial(i, trial) ==> Verifies(s.mem, trial))
    && (s.On? ==> s.app == if InTrial(i, trial) then trial else Other(trial))
    && (s.On? ==> Recorded(s))
  }

  lemma LoaderFrame(m: Memory, m': Memory, q: App)
    requires SameOutside(m, m', StartOf(q), EndOf(q))
    ensures LoadLoader(m') == LoadLoader(m)
  {
  }

  /** A quiet call changes only the spare partition, at every flash call. */
  lemma QuietConfined(s: System, call: Call, k: nat)
    requires Inv(s) && s.On? && Recorded(s) && Disciplined(s, DoCut(call, 0))
    requires s.ota.update < PARTITION_MAX && NoSave(s, call)
    requires k < |Effect(s, call).log|
    ensures SameOutside(s.mem, Effect(s, call).log[k], StartOf(Other(s.app)), EndOf(Other(s.app)))
  {
    if s.ota.initialized {
      match call
      case WriteChunk(data, offset) => Ota.ChunkConfined(s.mem, s.protection, s.ota, data, offset);
      case StartUpdate(image) => WriteImageConfined(s.mem, s.protection, s.ota.update, image, k);
      case Init =>
      case Abort =>
    }
  }

  /** Flash after a library call, complete or cut, is what its last flash call left. */
  lemma Reached(s: System, e: Event) returns (n: nat)
    requires s.On? && s.ota.update < PARTITION_MAX && (e.Do? || e.DoCut?)
    ensures n <= |Effect(s, e.call).log|
    ensures Next(s, e).mem == if n == 0 then s.mem else Effect(s, e.call).log[n - 1]
    ensures Next(s, e).On? ==> Next(s, e).app == s.app
  {
    var effect := Effect(s, e.call);
    if e.Do? {
      n := |effect.log|;
      Completed(s, e.call, effect);
    } else {
      n := if e.calls < |effect.log| then e.calls else |effect.log|;
      CutShort(s, e.call, e.calls, effect);
      CutAt(s.mem, effect.log, e.calls, n);
    }
  }

  lemma QuietCallConfined(s: System, e: Event, trial: App)
    requires Inv(s) && s.On? && Recorded(s) && (e.Do? || e.DoCut?) && Disciplined(s, e) && Quiet(s, e, trial)
    ensures SameOutside(s.mem, Next(s, e).mem, StartOf(Other(s.app)), EndOf(Other(s.app)))
    ensures Next(s, e).On? ==> Next(s, e).app == s.app && (s.ota.initialized ==> Next(s, e).ota.initialized)
  {
    var n := Reached(s, e);
    if n > 0 { QuietConfined(s, e.call, n - 1); }
    if e.Do? && s.ota.initialized { StaysInitialised(s, e.call); }
  }

  lemma StaysInitialised(s: System, call: Call)
    requires Inv(s) && s.On? && s.ota.initialized && Disciplined(s, Do(call))
    ensures Next(s, Do(call)).On? && Next(s, Do(call)).ota.initialized
  {
    var e := Effect(s, call);
    CallSound(s, call);
    Completed(s, call, e);
  }

  lemma SpareKeepsTrial(s: System, s': System, trial: App)
    requires TrialInv(s, trial) && Inv(s') && s.On?
    requires s'.On? ==> s'.app == s.app && (s.ota.initialized ==> s'.ota.initialized)
    requires SameOutside(s.mem, s'.mem, StartOf(Other(s.app)), EndOf(Other(s.app)))
    ensures TrialInv(s', trial)
  {
    LoaderFrame(s.mem, s'.mem, Other(s.app));
    VerifiesFrame(s.mem, s'.mem, s.app, StartOf(Other(s.app)), EndOf(Other(s.app)));
  }

  // ---- Boots inside a run ----

  lemma EndedKeepsTrial(m: Memory, run: Bootloader.Outcome, trial: App, budget: nat)
    requires Inv(AfterBoot(m, run)) && Ended(run, trial, budget) && budget <= 2
    ensures var s' := AfterBoot(m, run);
            && TrialInv(s', trial) && s'.On?
            && var i' := LoadLoader(s'.mem);
            if s'.app == trial then LaunchesLeft(i', trial) < budget else Restored(i', trial)
  {
    Bootloader.FlashAfterRecord(m, run.saves);
  }

  /** A complete boot uses up one launch of the trial application, or restores the previous one. */
  lemma BootKeepsTrial(m: Memory, trial: App)
    requires TrialInv(Off(m), trial) && Verifies(m, Other(trial))
    ensures var s' := Next(Off(m), Boot);
            && TrialInv(s', trial) && s'.On?
            && var i' := LoadLoader(s'.mem);
            if s'.app == trial then LaunchesLeft(i', trial) < LaunchesLeft(LoadLoader(m), trial)
            else Restored(i', trial)
  {
    AlwaysBoots(m, 0);
    TrialRun(Bootloader.ImagesOf(m), LoadLoader(m), trial);
    EndedKeepsTrial(m, BootRun(m), trial, LaunchesLeft(LoadLoader(m), trial));
  }

  lemma LogOf(m: Memory, saves: seq<LoaderInfo>, n: nat) returns (log: seq<Memory>)
    requires n <= |saves|
    ensures log == Bootloader.FlashLog(m, saves) && |log| == 2 * |saves|
    ensures Bootloader.FlashAfter(m, saves[..n]) == if n == 0 then m else log[2 * n - 1]
  {
    log := Bootloader.FlashLog(m, saves);
    if n > 0 {
      Bootloader.FlashLogAt(m, saves, 2 * n - 1);
    } else if saves != [] {
      Bootloader.FlashLogAt(m, saves, 0);
    }
  }

  /** Cut between two saves, or not at all, flash holds the result of the completed ones. */
  lemma EvenCut(m: Memory, saves: seq<LoaderInfo>, calls: nat) returns (n: nat)
    requires calls % 2 == 0 || calls >= 2 * |saves|
    ensures n <= |saves| && Cut(m, Bootloader.FlashLog(m, saves), calls) == Bootloader.FlashAfter(m, saves[..n])
  {
    n := if calls < 2 * |saves| then calls / 2 else |saves|;
    var log := LogOf(m, saves, n);
    CutAt(m, log, calls, 2 * n);
  }

  lemma CutAt(m: Memory, log: seq<Memory>, calls: nat, n: nat)
    requires n == if calls < |log| then calls else |log|
    ensures Cut(m, log, calls) == if n == 0 then m else log[n - 1]
  {
  }

  lemma PrefixKeepsTrial(m: Memory, saves: seq<LoaderInfo>, trial: App, budget: nat)
    requires TrialInv(Off(m), trial) && LaunchesLeft(LoadLoader(m), trial) <= budget <= 2
    requires saves != [] ==> LaunchesLeft(saves[|saves| - 1], trial) <= budget
    ensures var m' := Bootloader.FlashAfter(m, saves);
            Bootloader.ImagesOf(m') == Bootloader.ImagesOf(m) && LaunchesLeft(LoadLoader(m'), trial) <= budget
            && LoadLoader(m') == if saves == [] then LoadLoader(m) else saves[|saves| - 1]
  {
    Bootloader.FlashAfterImages(m, saves);
    if saves != [] { Bootloader.FlashAfterRecord(m, saves); }
  }

  lemma WithinCut(m: Memory, run: Bootloader.Outcome, calls: nat, trial: App, budget: nat)
    requires Inv(AfterBootCut(m, run, calls)) && (calls % 2 == 0 || calls >= 2 * |run.saves|) && TrialInv(Off(m), trial)
    requires LaunchesLeft(LoadLoader(m), trial) <= budget <= 2
    requires AllAllowed(Bootloader.ImagesOf(m), run.saves, trial, budget)
    ensures TrialInv(AfterBootCut(m, run, calls), trial)
    ensures LaunchesLeft(LoadLoader(AfterBootCut(m, run, calls).mem), trial) <= budget
  {
    var n := EvenCut(m, run.saves, calls);
    var part := run.saves[..n];
    assert part != [] ==> Allowed(Bootloader.ImagesOf(m), part[|part| - 1], trial, budget);
    PrefixKeepsTrial(m, part, trial, budget);
  }

  /** Cut inside a save, flash holds a torn record. */
  lemma OddCut(m: Memory, saves: seq<LoaderInfo>, calls: nat)
    requires calls % 2 == 1 && calls < 2 * |saves|
    ensures TornRecord(LoadLoader(Cut(m, Bootloader.FlashLog(m, saves), calls)))
    ensures Bootloader.ImagesOf(Cut(m, Bootloader.FlashLog(m, saves), calls)) == Bootloader.ImagesOf(m)
  {
    var before := TornAt(m, saves, calls);
    TornImages(before);
    Bootloader.FlashAfterImages(m, saves[..calls / 2]);
  }

  lemma TornAt(m: Memory, saves: seq<LoaderInfo>, calls: nat) returns (before: Memory)
    requires calls % 2 == 1 && calls < 2 * |saves|
    ensures before == Bootloader.FlashAfter(m, saves[..calls / 2])
    ensures Cut(m, Bootloader.FlashLog(m, saves), calls) == Torn(before)
  {
    before := Bootloader.FlashAfter(m, saves[..calls / 2]);
    Bootloader.FlashLogAt(m, saves, calls - 1);
    CutAt(m, Bootloader.FlashLog(m, saves), calls, calls);
  }

  lemma TornImages(m: Memory)
    ensures Bootloader.ImagesOf(Torn(m)) == Bootloader.ImagesOf(m) && TornRecord(LoadLoader(Torn(m)))
  {
    TornIsInvalid(m);
    VerifiesFrame(m, Torn(m), BOOTLOADER, DATA_START, DATA_START + SECTOR_SIZE);
    VerifiesFrame(m, Torn(m), APP_A, DATA_START, DATA_START + SECTOR_SIZE);
    VerifiesFrame(m, Torn(m), APP_B, DATA_START, DATA_START + SECTOR_SIZE);
  }

  lemma TornKeepsTrial(m: Memory, run: Bootloader.Outcome, calls: nat, trial: App)
    requires Inv(AfterBootCut(m, run, calls)) && trial == APP_B && calls % 2 == 1 && calls < 2 * |run.saves|
    ensures TrialInv(AfterBootCut(m, run, calls), trial)
    ensures LaunchesLeft(LoadLoader(AfterBootCut(m, run, calls).mem), trial) == 0
  {
    OddCut(m, run.saves, calls);
  }

  /** A cut boot leaves no more launches than before; cut inside a save, that needs APP_B on trial. */
  lemma BootCutKeepsTrial(m: Memory, calls: nat, trial: App)
    requires TrialInv(Off(m), trial) && Verifies(m, Other(trial)) && (trial == APP_B || !InsideSave(m, calls))
    ensures var s' := Next(Off(m), BootCut(calls));
            TrialInv(s', trial) && LaunchesLeft(LoadLoader(s'.mem), trial) <= LaunchesLeft(LoadLoader(m), trial)
  {
    var run, budget := BootRun(m), LaunchesLeft(LoadLoader(m), trial);
    AlwaysBoots(m, calls);
    TrialRun(Bootloader.ImagesOf(m), LoadLoader(m), trial);
    if calls % 2 == 1 && calls < 2 * |run.saves| {
      TornKeepsTrial(m, run, calls, trial);
    } else {
      WithinCut(m, run, calls, trial, budget);
    }
  }

  /**
   * A boot whose record save is torn loses the trial: the next boot has the previous application restored
   * if and only if it is APP_A, which the default record favours, or the trial image does not verify.
   * Otherwise the unconfirmed update is launched as a confirmed one.
   */
  lemma TornBoot(m: Memory, calls: nat, trial: App)
    requires TrialInv(Off(m), trial) && Verifies(m, Other(trial))
    requires InsideSave(m, calls)
    ensures var s' := Next(Next(Off(m), BootCut(calls)), Boot);
            && s'.On? && (Restored(LoadLoader(s'.mem), trial) <==> trial == APP_B || !Verifies(m, trial))
            && (s'.app == trial <==> !Restored(LoadLoader(s'.mem), trial)) && LoadCommon(s'.mem).confirmed
  {
    var m1 := Next(Off(m), BootCut(calls)).mem;
    OddCut(m, BootRun(m).saves, calls);
    DefaultBoot(Bootloader.ImagesOf(m1), LoadLoader(m1), trial);
    Bootloader.FlashAfterRecord(m1, BootRun(m1).saves);
  }

  lemma DefaultBoot(v: Bootloader.Images, i: LoaderInfo, trial: App)
    requires TornRecord(i) && Bootloader.Passes(v, Other(trial))
    ensures var run := Bootloader.Run(v, i);
            && run.saves != [] && WellFormed(Last(run).common) && Last(run).common.confirmed
            && run.launched == Some(if trial == APP_A && Bootloader.Passes(v, trial) then trial else Other(trial))
            && (Restored(Last(run), trial) <==> trial == APP_B || !Bootloader.Passes(v, trial))
  {
  }

  /** Events that launch nothing keep the trial and never add launches. */
  lemma SilentKeepsTrial(s: System, e: Event, trial: App)
    requires TrialInv(s, trial) && Verifies(s.mem, Other(trial)) && Disciplined(s, e) && Quiet(s, e, trial)
    requires !(s.Off? && e.Boot?)
    ensures var s' := Next(s, e);
            && TrialInv(s', trial) && (s.Off? ==> s'.Off?)
            && LaunchesLeft(LoadLoader(s'.mem), trial) <= LaunchesLeft(LoadLoader(s.mem), trial)
  {
    if s.Off? && e.BootCut? {
      BootCutKeepsTrial(s.mem, e.calls, trial);
    } else if s.On? && (e.Do? || e.DoCut?) {
      NextKeepsInv(s, e);
      QuietCallConfined(s, e, trial);
      SpareKeepsTrial(s, Next(s, e), trial);
      LoaderFrame(s.mem, Next(s, e).mem, Other(s.app));
    } else {
      NextKeepsInv(s, e);
    }
  }

  lemma {:induction false} BoundedMore(l: seq<Word>, trial: App, budget: nat, budget': nat)
    requires Bounded(l, trial, budget) && budget <= budget'
    ensures Bounded(l, trial, budget')
  {
    if !AllAre(l, Other(trial)) { BoundedMore(l[1..], trial, budget - 1, budget' - 1); }
  }

  /** A launch in front of a bounded list: a trial launch costs one, a restored launch allows no more of them. */
  lemma BoundedLaunch(app: Word, l: seq<Word>, trial: App, after: nat, budget: nat)
    requires Bounded(l, trial, after) && (app == trial || app == Other(trial))
    requires if app == trial then after < budget else after == 0
    ensures Bounded([app] + l, trial, budget)
  {
    assert ([app] + l)[1..] == l;
    if app == trial { BoundedMore(l, trial, after, budget - 1); }
  }

  /**
   * Over every quiet run that leaves the previous application intact, the trial application is launched at
   * most as often as the record allows (twice after an update), and after that only the previous one is.
   */
  lemma {:induction false} TrialIsBounded(s: System, events: seq<Event>, trial: App)
    requires TrialInv(s, trial) && TrialEvents(s, events, trial)
    ensures Bounded(Launches(s, events), trial, LaunchesLeft(LoadLoader(s.mem), trial))
    decreases |events|
  {
    if events != [] {
      var s', rest := Next(s, events[0]), events[1..];
      if s.Off? && events[0].Boot? {
        BootKeepsTrial(s.mem, trial);
      } else {
        SilentKeepsTrial(s, events[0], trial);
      }
      TrialIsBounded(s', rest, trial);
      TrialStep(s, events, trial, LaunchesLeft(LoadLoader(s'.mem), trial), LaunchesLeft(LoadLoader(s.mem), trial));
    }
  }

  lemma TrialStep(s: System, events: seq<Event>, trial: App, after: nat, left: nat)
    requires events != []
    requires var s' := Next(s, events[0]);
             && Bounded(Launches(s', events[1..]), trial, after)
             && if s.Off? && s'.On? then
                  (s'.app == trial && after < left) || (s'.app == Other(trial) && after == 0)
                else after <= left
    ensures Bounded(Launches(s, events), trial, left)
  {
    var s' := Next(s, events[0]);
    var l := Launches(s', events[1..]);
    if s.Off? && s'.On? {
      BoundedLaunch(s'.app, l, trial, after, left);
    } else {
      BoundedMore(l, trial, after, left);
      assert [] + l == l;
    }
  }
}
