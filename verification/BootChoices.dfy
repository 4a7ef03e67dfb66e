/** What the choices of the running application mean at the next boots: confirm, roll back, select. */
module BootChoices {
  import opened Bytes
  import opened Flash
  import opened BootInfo
  import opened BootSystem
  import opened TrialBoots
  import opened Wrappers
  import Bootloader
  import BootSafety
  import Crc32
  import CrcBursts
  import Ota

  /** The flash lets the record be rewritten. */
  predicate Writable(p: Protection) { EraseError(p, DATA_START) == Ok && WriteError(p, DATA_START, 28) == Ok }

  /** The checksum that is saved with a record. */
  function ChecksumOf(c: Common): Word { Crc32.Crc(Layout(CommonWords(c))) }

  /** The record that a call saves, as the bootloader sees it: the checksum takes the place of the attempt counter. */
  lemma RecordSeen(m: Memory, p: Protection, o: Ota.State, c: Common) returns (m': Memory, crc: Word)
    requires Writable(p) && GoodCommon(c)
    ensures m' == Final(m, Ota.SaveInfo(m, p, o.(info := o.info.(common := c))).log)
    ensures LoadLoader(m') == LoaderInfo(c, crc, ERASED_WORD, ERASED_WORD) && crc == ChecksumOf(c)
    ensures SameOutside(m, m', DATA_START, DATA_START + SECTOR_SIZE)
    ensures Bootloader.ImagesOf(m') == Bootloader.ImagesOf(m)
  {
    var info := Ota.Checksummed(o.info.(common := c));
    crc, m' := info.crc, Saved(m, OtaWords(info));
    OtaSaveSeenByLoader(m, info);
    SavedConfined(m, OtaWords(info));
    Bootloader.RecordChangeImages(m, m');
  }

  /** The contents that flash goes through when record c is saved. */
  ghost predicate RecordLog(m: Memory, p: Protection, o: Ota.State, c: Common, log: seq<Memory>) {
    log == Ota.SaveInfo(m, p, o.(info := o.info.(common := c))).log
  }

  /** The call saves record c, as far as flash is concerned. */
  ghost predicate SavesRecord(s: System, call: Call, c: Common)
    requires s.On? && s.ota.update < PARTITION_MAX
  {
    Writable(s.protection) && GoodCommon(c) && RecordLog(s.mem, s.protection, s.ota, c, Effect(s, call).log)
  }

  lemma CallSaves(s: System, call: Call, c: Common, s1: System) returns (crc: Word)
    requires s.On? && s.ota.update < PARTITION_MAX && SavesRecord(s, call, c) && s1 == Next(s, Do(call))
    ensures s1.On? && s1.app == s.app && LoadLoader(s1.mem) == LoaderInfo(c, crc, ERASED_WORD, ERASED_WORD)
    ensures crc == ChecksumOf(c)
    ensures Bootloader.ImagesOf(s1.mem) == Bootloader.ImagesOf(s.mem)
  {
    var m';
    m', crc := RecordSeen(s.mem, s.protection, s.ota, c);
    Completed(s, call, Effect(s, call));
  }

  // ---- Confirming ends the trial ----

  lemma ConfirmSaves(s: System) returns (c: Common)
    requires Inv(s) && s.On? && s.ota.initialized && Effect(s, Confirm).error == Ota.OK
    ensures SavesRecord(s, Confirm, c) && c.active == s.app && c.confirmed
    ensures Effect(s, Confirm).state.initialized
  {
    c := s.ota.info.common.(confirmed := true, active := s.app);
    ConfirmLog(s.mem, s.protection, s.ota, c);
  }

  lemma ConfirmLog(m: Memory, p: Protection, o: Ota.State, c: Common)
    requires o.initialized && c == o.info.common.(confirmed := true, active := o.running)
    ensures RecordLog(m, p, o, c, Ota.Confirm(m, p, o).log)
    ensures Ota.Confirm(m, p, o).state.initialized && (Ota.Confirm(m, p, o).error == Ota.OK ==> Writable(p))
  {
  }

  lemma ConfirmedRecord(s: System, s1: System)
    requires Inv(s) && s.On? && s.ota.initialized && Effect(s, Confirm).error == Ota.OK && s1 == Next(s, Do(Confirm))
    ensures s1.On? && s1.app == s.app && s1.ota.initialized && Restored(LoadLoader(s1.mem), Other(s.app))
  {
    var c := ConfirmSaves(s);
    var crc := CallSaves(s, Confirm, c, s1);
    Completed(s, Confirm, Effect(s, Confirm));
  }

  lemma ConfirmedTrial(s: System, s1: System)
    requires Inv(s) && s.On? && s.ota.initialized && Effect(s, Confirm).error == Ota.OK && s1 == Next(s, Do(Confirm))
    ensures TrialInv(s1, Other(s.app)) && LaunchesLeft(LoadLoader(s1.mem), Other(s.app)) == 0
  {
    ConfirmedRecord(s, s1);
    NextKeepsInv(s, Do(Confirm));
  }

  /**
   * Confirming is final: after a call that returns OK, over every disciplined run without a further save by the library
   * that keeps the confirmed image and, if that is APP_B, loses no power inside a save, only that image is launched.
   */
  lemma ConfirmIsFinal(s: System, s1: System, events: seq<Event>)
    requires Inv(s) && s.On? && s.ota.initialized && Effect(s, Confirm).error == Ota.OK && s1 == Next(s, Do(Confirm))
    requires TrialEvents(s1, events, Other(s.app))
    ensures forall k :: 0 <= k < |Launches(s1, events)| ==> Launches(s1, events)[k] == s.app
  {
    ConfirmedTrial(s, s1);
    TrialIsBounded(s1, events, Other(s.app));
  }

  // ---- Rolling back ----

  /** What a boot launches under a confirmed record. */
  lemma SettledBoot(m: Memory, i: LoaderInfo)
    requires Bootable(m) && i == LoadLoader(m) && i.common.magic == BOOT_MAGIC && i.common.confirmed
    ensures Next(Off(m), Boot).On?
    ensures Next(Off(m), Boot).app == if Verifies(m, i.common.active) then i.common.active else Other(i.common.active)
  {
    AlwaysBoots(m, 0);
    BootSafety.BootLaunches(m);
  }

  lemma RollbackSaves(s: System) returns (c: Common)
    requires Inv(s) && s.On? && s.ota.initialized && Writable(s.protection)
    ensures SavesRecord(s, Rollback, c) && c.active == Other(s.app) && c.confirmed
  {
    var before, other := s.ota.info.common, Other(s.app);
    c := before.(active := other, pending := other, confirmed := true,
                 rollbackCount := Increment(before.rollbackCount));
    RollbackLog(s.mem, s.protection, s.ota, other, c);
  }

  lemma RollbackLog(m: Memory, p: Protection, o: Ota.State, other: App, c: Common)
    requires o.initialized && other == Other(o.running)
    requires c == o.info.common.(active := other, pending := other, confirmed := true,
                                 rollbackCount := Increment(o.info.common.rollbackCount))
    ensures RecordLog(m, p, o, c, Ota.Rollback(m, p, o).log)
  {
  }

  /** After a rollback that saved its record the next boot launches the other application if and only if it verifies. */
  lemma RollbackBoots(s: System, s1: System)
    requires Inv(s) && s.On? && s.ota.initialized && Writable(s.protection) && s1 == Next(s, Do(Rollback))
    ensures Next(Off(s1.mem), Boot).On?
    ensures Next(Off(s1.mem), Boot).app == if Verifies(s.mem, Other(s.app)) then Other(s.app) else s.app
  {
    var c := RollbackSaves(s);
    var crc := CallSaves(s, Rollback, c, s1);
    NextKeepsInv(s, Do(Rollback));
    SoundIsBootable(s1.mem, s.app);
    SettledBoot(s1.mem, LoadLoader(s1.mem));
  }

  // ---- Selecting ----

  /** Both ways to select: by name, and the partition of an update that is complete. */
  ghost predicate Selects(s: System, call: Call, target: App)
    requires s.On?
  {
    || call == SetBootPartition(target)
    || (call == Finalize && s.ota.progress == Ota.Complete && target == s.ota.update)
  }

  lemma SelectionSaves(s: System, call: Call, target: App) returns (c: Common)
    requires Inv(s) && s.On? && s.ota.initialized && Writable(s.protection) && Selects(s, call, target)
    ensures Effect(s, call).error == Ota.OK && SavesRecord(s, call, c)
    ensures c == s.ota.info.common.(pending := target, confirmed := false)
  {
    c := s.ota.info.common.(pending := target, confirmed := false);
    SelectionLog(s.mem, s.protection, s.ota, target, c);
  }

  lemma SelectionLog(m: Memory, p: Protection, o: Ota.State, target: App, c: Common)
    requires o.initialized && Writable(p) && c == o.info.common.(pending := target, confirmed := false)
    ensures RecordLog(m, p, o, c, Ota.SetBootPartition(m, p, o, target).log)
    ensures Ota.SetBootPartition(m, p, o, target).error == Ota.OK
    ensures o.progress == Ota.Complete && target == o.update ==>
      Ota.Finalize(m, p, o) == Ota.SetBootPartition(m, p, o, target)
  {
  }

  /** What a boot launches under an unconfirmed record whose pending partition is an application. */
  lemma PendingBoot(m: Memory, i: LoaderInfo, target: App)
    requires Bootable(m) && i == LoadLoader(m) && i.common.magic == BOOT_MAGIC
    requires !i.common.confirmed && i.common.pending == target
    ensures Next(Off(m), Boot).On?
    ensures Next(Off(m), Boot).app == target <==>
      && Verifies(m, target)
      && (i.common.active != target
          || Increment(i.attempts) < Bootloader.MAX_BOOT_ATTEMPTS || !Verifies(m, Other(target)))
  {
    AlwaysBoots(m, 0);
    BootSafety.BootLaunches(m);
  }

  /**
   * The next boot after a selection launches the selected application if and only if it verifies and, if it was the
   * active one already, the checksum that now stands for the attempt counter allows it or the other one does not
   * verify.
   */
  lemma SelectionBoots(s: System, call: Call, target: App, s1: System)
    requires Inv(s) && s.On? && s.ota.initialized && Writable(s.protection) && Selects(s, call, target)
    requires s1 == Next(s, Do(call))
    ensures Next(Off(s1.mem), Boot).On?
    ensures Next(Off(s1.mem), Boot).app == target <==>
      && Verifies(s.mem, target)
      && (s.ota.info.common.active != target
          || Increment(ChecksumOf(s.ota.info.common.(pending := target, confirmed := false))) < 3
          || !Verifies(s.mem, Other(target)))
  {
    var c := SelectionSaves(s, call, target);
    var crc := CallSaves(s, call, c, s1);
    NextKeepsInv(s, Do(call));
    SoundIsBootable(s1.mem, s.app);
    PendingBoot(s1.mem, LoadLoader(s1.mem), target);
  }

  // ---- Selecting the active application ----

  lemma RecordBytes(c: Common)
    ensures Layout(CommonWords(c)) ==
      Layout([c.magic, c.active, c.pending, c.bootCount]) + PutWord(c.rollbackCount) + PutWord(FlagsWord(c))
  {
    var front, back := [c.magic, c.active, c.pending, c.bootCount], [c.rollbackCount, FlagsWord(c)];
    assert CommonWords(c) == front + back;
    LayoutJoin(front, back);
    LayoutJoin([c.rollbackCount], [FlagsWord(c)]);
    assert back == [c.rollbackCount] + [FlagsWord(c)];
    LayoutOne(c.rollbackCount);
    LayoutOne(FlagsWord(c));
    Regroup(Layout(front), PutWord(c.rollbackCount), PutWord(FlagsWord(c)));
  }

  lemma LayoutOne(w: Word)
    ensures Layout([w]) == PutWord(w)
  {
    assert [w][1..] == [] && PutWord(w) + [] == PutWord(w);
  }

  /** Records that differ in the rollback counter only have different checksums. */
  lemma ChecksumsDiffer(c: Common, r: Word, r': Word)
    ensures ChecksumOf(c.(rollbackCount := r)) == ChecksumOf(c.(rollbackCount := r')) <==> r == r'
  {
    RecordBytes(c.(rollbackCount := r));
    RecordBytes(c.(rollbackCount := r'));
    CrcBursts.WordChangeDetected(Layout([c.magic, c.active, c.pending, c.bootCount]), r, r', PutWord(FlagsWord(c)));
  }

  /** One of the counters 0 to 3 gives a checksum that uses up all attempts. */
  lemma ExhaustingCounter(c: Common) returns (r: Word)
    ensures Increment(ChecksumOf(c.(rollbackCount := r))) >= 3
  {
    ChecksumsDiffer(c, 0, 1);
    ChecksumsDiffer(c, 0, 2);
    ChecksumsDiffer(c, 0, 3);
    ChecksumsDiffer(c, 1, 2);
    ChecksumsDiffer(c, 1, 3);
    ChecksumsDiffer(c, 2, 3);
    var x0, x1 := ChecksumOf(c.(rollbackCount := 0)), ChecksumOf(c.(rollbackCount := 1));
    var x2, x3 := ChecksumOf(c.(rollbackCount := 2)), ChecksumOf(c.(rollbackCount := 3));
    var k := OneOfFour(x0, x1, x2, x3);
    r := k;
  }

  /** Only three values of the counter leave an attempt. */
  lemma OneOfFour(x0: Word, x1: Word, x2: Word, x3: Word) returns (k: Word)
    requires x0 != x1 && x0 != x2 && x0 != x3 && x1 != x2 && x1 != x3 && x2 != x3
    ensures k < 4 && Increment(if k == 0 then x0 else if k == 1 then x1 else if k == 2 then x2 else x3) >= 3
  {
    FewAttempts(x0);
    FewAttempts(x1);
    FewAttempts(x2);
    FewAttempts(x3);
    k := if Increment(x0) >= 3 then 0 else if Increment(x1) >= 3 then 1 else if Increment(x2) >= 3 then 2 else 3;
  }

  lemma FewAttempts(x: Word)
    ensures Increment(x) < 3 <==> x == 0 || x == 1 || x == 0xFFFF_FFFF
  {
  }

  /**
   * From every state in which both applications verify there is one that differs in the rollback counter only, and in
   * which selecting the active application makes the next boot launch the other one.
   */
  lemma SelectedActiveRollsBack(s: System, target: App) returns (s': System)
    requires Inv(s) && s.On? && s.ota.initialized && Writable(s.protection) && s.ota.info.common.active == target
    requires Verifies(s.mem, target) && Verifies(s.mem, Other(target))
    ensures s'.On? && s' == s.(ota := s.ota.(info := s.ota.info.(common := s'.ota.info.common)))
    ensures s'.ota.info.common == s.ota.info.common.(rollbackCount := s'.ota.info.common.rollbackCount)
    ensures var s1 := Next(s', Do(SetBootPartition(target)));
            Inv(s') && Next(Off(s1.mem), Boot).On? && Next(Off(s1.mem), Boot).app == Other(target)
  {
    var r := ExhaustingCounter(s.ota.info.common.(pending := target, confirmed := false));
    s' := s.(ota := s.ota.(info := s.ota.info.(common := s.ota.info.common.(rollbackCount := r))));
    var s1 := Next(s', Do(SetBootPartition(target)));
    SelectionBoots(s', SetBootPartition(target), target, s1);
    SelectedBootable(s', target, s1);
  }

  lemma SelectedBootable(s: System, target: App, s1: System)
    requires Inv(s) && s.On? && s.ota.initialized && s1 == Next(s, Do(SetBootPartition(target)))
    ensures Next(Off(s1.mem), Boot).On? && IsApp(Next(Off(s1.mem), Boot).app)
  {
    NextKeepsInv(s, Do(SetBootPartition(target)));
    SoundIsBootable(s1.mem, s.app);
    AlwaysBoots(s1.mem, 0);
  }

  // ---- Finalising an update ----

  /** A finalisation is accepted exactly when the last update or abort left a complete one. */
  lemma FinalizeIff(s: System)
    requires Inv(s) && s.On? && s.ota.initialized && Writable(s.protection)
    ensures Effect(s, Finalize).error == Ota.OK <==> s.ota.progress == Ota.Complete
  {
  }

  /** An update that passes its argument checks is complete exactly when it returns OK, and an abort never is. */
  lemma CompleteIff(s: System, image: seq<Byte>)
    requires s.On? && s.ota.initialized && s.ota.update < PARTITION_MAX && 0 < |image| <= APP_SIZE
    ensures Next(s, Do(StartUpdate(image))).ota.progress == Ota.Complete <==>
      Effect(s, StartUpdate(image)).error == Ota.OK
    ensures Next(s, Do(Abort)).ota.progress != Ota.Complete
  {
    Completed(s, StartUpdate(image), Effect(s, StartUpdate(image)));
    Completed(s, Abort, Effect(s, Abort));
  }
}
