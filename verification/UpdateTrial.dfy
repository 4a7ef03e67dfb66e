/** The trial of an update from end to end: from the call that wrote it to the last boot that launches it. */
module UpdateTrial {
  import opened Bytes
  import opened Flash
  import opened BootInfo
  import opened BootSystem
  import opened TrialBoots
  import opened Wrappers
  import Bootloader
  import Ota

  lemma ArmedTrial(m: Memory, trial: App)
    requires Bootable(m) && Armed(LoadLoader(m), trial)
    ensures TrialInv(Off(m), trial) && LaunchesLeft(LoadLoader(m), trial) == 2
  {
  }

  /** The running application is intact after a call. */
  lemma AppStays(s: System, call: Call, s': System)
    requires Inv(s) && s.On? && Disciplined(s, Do(call)) && s' == Next(s, Do(call))
    ensures Sound(s'.mem, s.app)
  {
    var e := CallOutcome(s, call);
    Completed(s, call, e);
  }

  lemma ResetOff(s: System)
    ensures Next(s, Reset) == Off(s.mem)
  {
  }

  /** The device switched off after an update that armed its trial. */
  lemma UpdateStartsTrial(s: System, image: seq<Byte>, s1: System)
    requires Updated(s, image) && s.ota.info.common.active == s.ota.running && s1 == Next(s, Do(StartUpdate(image)))
    ensures Next(s1, Reset) == Off(s1.mem) && Verifies(s1.mem, s.app) && Verifies(s1.mem, Other(s.app))
    ensures Armed(LoadLoader(s1.mem), Other(s.app)) && TrialInv(Off(s1.mem), Other(s.app))
    ensures LaunchesLeft(LoadLoader(s1.mem), Other(s.app)) == 2
  {
    UpdateArms(s, image, s1);
    AppStays(s, StartUpdate(image), s1);
    ResetOff(s1);
    SoundIsBootable(s1.mem, s.app);
    ArmedTrial(s1.mem, Other(s.app));
  }

  /** A boot launches p and leaves m'. */
  ghost predicate BootsTo(m: Memory, m': Memory, p: Word) { Next(Off(m), Boot) == On(m', p, Ota.Zeroed, Unprotected) }

  /** A boot whose run is known, over flash. */
  lemma BootOnce(m: Memory, run: Bootloader.Outcome, p: Word) returns (m': Memory)
    requires run == BootRun(m) && run.launched == Some(p) && run.saves != [] && WellFormed(Last(run).common)
    ensures BootsTo(m, m', p) && LoadLoader(m') == Last(run) && Bootloader.ImagesOf(m') == Bootloader.ImagesOf(m)
  {
    m' := Bootloader.FlashAfter(m, run.saves);
    Bootloader.FlashAfterRecord(m, run.saves);
    Bootloader.FlashAfterImages(m, run.saves);
  }

  lemma FirstBoot(m: Memory, trial: App) returns (m': Memory)
    requires Armed(LoadLoader(m), trial) && Verifies(m, trial)
    ensures BootsTo(m, m', trial) && Trying(LoadLoader(m'), trial, 1)
    ensures Bootloader.ImagesOf(m') == Bootloader.ImagesOf(m)
  {
    FirstTrial(Bootloader.ImagesOf(m), LoadLoader(m), trial);
    m' := BootOnce(m, BootRun(m), trial);
  }

  lemma SecondBoot(m: Memory, trial: App) returns (m': Memory)
    requires Trying(LoadLoader(m), trial, 1) && Verifies(m, trial)
    ensures BootsTo(m, m', trial) && Trying(LoadLoader(m'), trial, 2)
    ensures Bootloader.ImagesOf(m') == Bootloader.ImagesOf(m)
  {
    NextTrial(Bootloader.ImagesOf(m), LoadLoader(m), trial);
    m' := BootOnce(m, BootRun(m), trial);
  }

  lemma ThirdBoot(m: Memory, trial: App) returns (m': Memory)
    requires Trying(LoadLoader(m), trial, 2) && Verifies(m, trial) && Verifies(m, Other(trial))
    ensures BootsTo(m, m', Other(trial)) && Restored(LoadLoader(m'), trial)
  {
    TrialRun(Bootloader.ImagesOf(m), LoadLoader(m), trial);
    m' := BootOnce(m, BootRun(m), Other(trial));
  }

  /**
   * The whole trial: after an update and a reset the next boot launches it, and over every run from there within the
   * limits of `TrialEvents` it is launched at most twice and from then on only the previous application is.
   */
  lemma UpdateOnTrial(s: System, image: seq<Byte>, s1: System, events: seq<Event>) returns (m1: Memory)
    requires Updated(s, image) && s.ota.info.common.active == s.ota.running && s1 == Next(s, Do(StartUpdate(image)))
    requires TrialEvents(Next(s1, Reset), events, Other(s.app))
    ensures Next(s1, Reset) == Off(s1.mem) && BootsTo(s1.mem, m1, Other(s.app))
    ensures Bounded(Launches(Next(s1, Reset), events), Other(s.app), 2)
  {
    UpdateStartsTrial(s, image, s1);
    m1 := FirstBoot(s1.mem, Other(s.app));
    TrialIsBounded(Off(s1.mem), events, Other(s.app));
  }

  /**
   * After an update, with nothing but resets and boots, flash goes through m1 and m2 to m3: the update is
   * launched, launched again, and then the previous application is, confirmed for good.
   */
  lemma UpdateLaunchedTwice(s: System, image: seq<Byte>, s1: System) returns (m1: Memory, m2: Memory, m3: Memory)
    requires Updated(s, image) && s.ota.info.common.active == s.ota.running && s1 == Next(s, Do(StartUpdate(image)))
    ensures BootsTo(s1.mem, m1, Other(s.app)) && BootsTo(m1, m2, Other(s.app)) && BootsTo(m2, m3, s.app)
    ensures Next(s1, Reset) == Off(s1.mem) && Restored(LoadLoader(m3), Other(s.app))
  {
    UpdateStartsTrial(s, image, s1);
    m1 := FirstBoot(s1.mem, Other(s.app));
    m2 := SecondBoot(m1, Other(s.app));
    m3 := ThirdBoot(m2, Other(s.app));
  }
}
