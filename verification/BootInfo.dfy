/**
 * The partition table, the firmware image check, and the boot record in the data partition.
 * The bootloader and the OTA library declare different structs over the same flash bytes;
 * they share the first 24 bytes only.
 */
module BootInfo {
  import opened Bytes
  import opened Flash

  const BOOTLOADER := 0
  const APP_A := 1
  const APP_B := 2
  const DATA := 3
  const PARTITION_MAX := 4

  const APP_SIZE := 240 * 1024
  const DATA_START := 0x7C000
  const IMAGE_MAGIC := 0x544F5346
  const BOOT_MAGIC := 0x424F4F54
  const ERASED_WORD := 0xFFFF_FFFF

  /** Offset of `image_size` in the image header, after magic, version and a 32-byte version string. */
  const IMAGE_SIZE_OFFSET := 40
  const HEADER_SIZE := 104

  type App = p: Word | p == APP_A || p == APP_B witness APP_A

  function StartOf(p: Word): nat
    requires p < PARTITION_MAX
  {
    if p == BOOTLOADER then 0 else if p == APP_A then 0x4000 else if p == APP_B then 0x40000 else DATA_START
  }

  function SizeOf(p: Word): nat
    requires p < PARTITION_MAX
  {
    if p == BOOTLOADER || p == DATA then 16 * 1024 else APP_SIZE
  }

  function Other(p: Word): App {
    if p == APP_A then APP_B else APP_A
  }

  function EndOf(p: Word): nat
    requires p < PARTITION_MAX
  {
    StartOf(p) + SizeOf(p)
  }

  /** The partition table tiles the flash. */
  lemma PartitionsTile(i: nat)
    requires i < TOTAL_SIZE
    ensures exists p: Word :: p < PARTITION_MAX && StartOf(p) <= i < EndOf(p)
    ensures forall p: Word, q: Word :: p < q < PARTITION_MAX ==> EndOf(p) <= StartOf(q)
  {
    var p: Word := if i < 0x4000 then 0 else if i < 0x40000 then 1 else if i < DATA_START then 2 else 3;
    assert StartOf(p) <= i < EndOf(p);
  }

  /** The image check that decides whether a partition may be booted. */
  predicate Verifies(m: Memory, p: Word) {
    p < PARTITION_MAX &&
    var size := GetWord(m, StartOf(p) + IMAGE_SIZE_OFFSET);
    GetWord(m, StartOf(p)) == IMAGE_MAGIC && size != 0 && size <= SizeOf(p)
  }

  /** The check reads only header bytes of its own partition. */
  lemma VerifiesFrame(m: Memory, m': Memory, p: Word, lo: int, hi: int)
    requires SameOutside(m, m', lo, hi)
    requires p < PARTITION_MAX ==> hi <= StartOf(p) || StartOf(p) + HEADER_SIZE <= lo
    ensures Verifies(m, p) == Verifies(m', p)
  {
  }

  /** The fields both structs share. */
  datatype Common = Common(
    magic: Word, active: Word, pending: Word, bootCount: Word, rollbackCount: Word,
    rollbackEnabled: bool, confirmed: bool, padding: Word)

  datatype LoaderInfo = LoaderInfo(common: Common, attempts: Word, lastBoot: Word, crc: Word)

  datatype OtaInfo = OtaInfo(common: Common, crc: Word)

  const DefaultCommon := Common(BOOT_MAGIC, APP_A, APP_A, 0, 0, true, true, 0)

  function Increment(w: Word): Word {
    var n: int := w;
    (n + 1) % 0x1_0000_0000
  }

  /** The two one-byte flags and the two padding bytes, as the word they occupy. */
  function FlagsWord(c: Common): (w: Word) {
    (if c.rollbackEnabled then 1 else 0) + (if c.confirmed then 0x100 else 0) + c.padding % 0x1_0000 * 0x1_0000
  }

  function CommonWords(c: Common): (ws: seq<Word>)
    ensures |ws| == 6
  {
    [c.magic, c.active, c.pending, c.bootCount, c.rollbackCount, FlagsWord(c)]
  }

  function LoaderWords(i: LoaderInfo): (ws: seq<Word>)
    ensures |ws| == 9
  {
    CommonWords(i.common) + [i.attempts, i.lastBoot, i.crc]
  }

  function OtaWords(i: OtaInfo): (ws: seq<Word>)
    ensures |ws| == 7
  {
    CommonWords(i.common) + [i.crc]
  }

  /** A struct of words as the bytes it occupies. */
  function Layout(ws: seq<Word>): (s: seq<Byte>)
    ensures |s| == 4 * |ws|
  {
    if ws == [] then [] else PutWord(ws[0]) + Layout(ws[1..])
  }

  lemma {:induction false} LayoutAt(ws: seq<Word>, k: nat)
    requires k < |ws|
    ensures GetWord(Layout(ws), 4 * k) == ws[k]
  {
    if k == 0 {
      PutThenGet(ws[0]);
      GetWordSame(Layout(ws), 0, PutWord(ws[0]), 0);
    } else {
      LayoutAt(ws[1..], k - 1);
      GetWordSame(Layout(ws), 4 * k, Layout(ws[1..]), 4 * (k - 1));
    }
  }

  lemma {:induction false} LayoutJoin(a: seq<Word>, b: seq<Word>)
    ensures Layout(a + b) == Layout(a) + Layout(b)
    decreases |a|
  {
    if a == [] {
      assert a + b == b;
    } else {
      assert (a + b)[1..] == a[1..] + b;
      LayoutJoin(a[1..], b);
    }
  }

  /** Word k of the boot record. */
  function RecordWord(m: Memory, k: nat): Word
    requires k < 16
  {
    GetWord(m, DATA_START + 4 * k)
  }

  function LoadCommon(m: Memory): Common {
    var flags := RecordWord(m, 5);
    Common(RecordWord(m, 0), RecordWord(m, 1), RecordWord(m, 2), RecordWord(m, 3), RecordWord(m, 4),
           flags % 0x100 != 0, flags / 0x100 % 0x100 != 0, flags / 0x1_0000)
  }

  function LoadLoader(m: Memory): LoaderInfo {
    LoaderInfo(LoadCommon(m), RecordWord(m, 6), RecordWord(m, 7), RecordWord(m, 8))
  }

  function LoadOta(m: Memory): OtaInfo {
    OtaInfo(LoadCommon(m), RecordWord(m, 6))
  }

  /** Flash between the two halves of a record update: the sector is erased. */
  function Torn(m: Memory): Memory {
    Erased(m, DATA_START)
  }

  /** Flash after a record update. */
  function Saved(m: Memory, ws: seq<Word>): Memory
    requires |ws| <= 16
  {
    Program(Torn(m), DATA_START, Layout(ws))
  }

  lemma SavedWord(m: Memory, ws: seq<Word>, k: nat)
    requires |ws| <= 16 && k < 16
    ensures RecordWord(Saved(m, ws), k) == if k < |ws| then ws[k] else ERASED_WORD
  {
    var m' := Saved(m, ws);
    if k < |ws| {
      LayoutAt(ws, k);
      assert m'[DATA_START + 4 * k..DATA_START + 4 * k + 4] == Layout(ws)[4 * k..4 * k + 4];
      GetWordSame(m', DATA_START + 4 * k, Layout(ws), 4 * k);
    }
  }

  ghost predicate WellFormed(c: Common) { c.padding < 0x1_0000 }

  lemma FlagsRoundTrip(c: Common)
    requires WellFormed(c)
    ensures var w := FlagsWord(c);
            && (w % 0x100 != 0) == c.rollbackEnabled && (w / 0x100 % 0x100 != 0) == c.confirmed
            && w / 0x1_0000 == c.padding
  {
  }

  lemma SavedCommon(m: Memory, c: Common, rest: seq<Word>)
    requires WellFormed(c) && |rest| <= 10
    ensures LoadCommon(Saved(m, CommonWords(c) + rest)) == c
  {
    var ws := CommonWords(c) + rest;
    SavedWord(m, ws, 0);
    SavedWord(m, ws, 1);
    SavedWord(m, ws, 2);
    SavedWord(m, ws, 3);
    SavedWord(m, ws, 4);
    SavedWord(m, ws, 5);
    FlagsRoundTrip(c);
  }

  /** The fields that both structs have, at their offsets in flash: five words and two bytes. */
  ghost predicate CommonAt(m: Memory, c: Common) {
    && GetWord(m, DATA_START) == c.magic && GetWord(m, DATA_START + 4) == c.active
    && GetWord(m, DATA_START + 8) == c.pending && GetWord(m, DATA_START + 12) == c.bootCount
    && GetWord(m, DATA_START + 16) == c.rollbackCount
    && m[DATA_START + 20] == (if c.rollbackEnabled then 1 else 0)
    && m[DATA_START + 21] == (if c.confirmed then 1 else 0)
  }

  lemma FlagBytes(m: Memory, c: Common)
    requires RecordWord(m, 5) == FlagsWord(c)
    ensures m[DATA_START + 20] == (if c.rollbackEnabled then 1 else 0)
    ensures m[DATA_START + 21] == (if c.confirmed then 1 else 0)
  {
    LowByteFirst(m, DATA_START + 20);
  }

  lemma CommonPlaced(m: Memory, c: Common, rest: seq<Word>)
    requires |rest| <= 10
    ensures CommonAt(Saved(m, CommonWords(c) + rest), c)
  {
    var ws := CommonWords(c) + rest;
    SavedWord(m, ws, 0);
    SavedWord(m, ws, 1);
    SavedWord(m, ws, 2);
    SavedWord(m, ws, 3);
    SavedWord(m, ws, 4);
    SavedWord(m, ws, 5);
    FlagBytes(Saved(m, ws), c);
  }

  /** Where the bootloader's struct has its fields. */
  lemma LoaderLayout(m: Memory, i: LoaderInfo)
    ensures var m' := Saved(m, LoaderWords(i));
            && CommonAt(m', i.common) && GetWord(m', DATA_START + 24) == i.attempts
            && GetWord(m', DATA_START + 28) == i.lastBoot && GetWord(m', DATA_START + 32) == i.crc
  {
    CommonPlaced(m, i.common, [i.attempts, i.lastBoot, i.crc]);
    SavedWord(m, LoaderWords(i), 6);
    SavedWord(m, LoaderWords(i), 7);
    SavedWord(m, LoaderWords(i), 8);
  }

  /** Where the library's struct has its fields. */
  lemma OtaLayout(m: Memory, i: OtaInfo)
    ensures var m' := Saved(m, OtaWords(i)); CommonAt(m', i.common) && GetWord(m', DATA_START + 24) == i.crc
  {
    CommonPlaced(m, i.common, [i.crc]);
    SavedWord(m, OtaWords(i), 6);
  }

  /** What the bootloader saves, it reads back. */
  lemma LoaderRoundTrip(m: Memory, i: LoaderInfo)
    requires WellFormed(i.common)
    ensures LoadLoader(Saved(m, LoaderWords(i))) == i
  {
    SavedCommon(m, i.common, [i.attempts, i.lastBoot, i.crc]);
    SavedWord(m, LoaderWords(i), 6);
    SavedWord(m, LoaderWords(i), 7);
    SavedWord(m, LoaderWords(i), 8);
  }

  /** What the OTA library saves, it reads back. */
  lemma OtaRoundTrip(m: Memory, i: OtaInfo)
    requires WellFormed(i.common)
    ensures LoadOta(Saved(m, OtaWords(i))) == i
  {
    SavedCommon(m, i.common, [i.crc]);
    SavedWord(m, OtaWords(i), 6);
  }

  /** An OTA save shows the bootloader its checksum as the attempt counter, and erased words behind it. */
  lemma OtaSaveSeenByLoader(m: Memory, i: OtaInfo)
    requires WellFormed(i.common)
    ensures LoadLoader(Saved(m, OtaWords(i))) == LoaderInfo(i.common, i.crc, ERASED_WORD, ERASED_WORD)
  {
    SavedCommon(m, i.common, [i.crc]);
    SavedWord(m, OtaWords(i), 6);
    SavedWord(m, OtaWords(i), 7);
    SavedWord(m, OtaWords(i), 8);
  }

  /** A bootloader save shows the OTA library its attempt counter as the checksum. */
  lemma LoaderSaveSeenByOta(m: Memory, i: LoaderInfo)
    requires WellFormed(i.common)
    ensures LoadOta(Saved(m, LoaderWords(i))) == OtaInfo(i.common, i.attempts)
  {
    SavedCommon(m, i.common, [i.attempts, i.lastBoot, i.crc]);
    SavedWord(m, LoaderWords(i), 6);
  }

  lemma LoadedWellFormed(m: Memory)
    ensures WellFormed(LoadCommon(m))
  {
  }

  /** An interrupted record update leaves no valid record. */
  lemma TornIsInvalid(m: Memory)
    ensures LoadCommon(Torn(m)).magic != BOOT_MAGIC
    ensures SameOutside(m, Torn(m), DATA_START, DATA_START + SECTOR_SIZE)
  {
  }

  lemma SavedConfined(m: Memory, ws: seq<Word>)
    requires |ws| <= 16
    ensures SameOutside(m, Saved(m, ws), DATA_START, DATA_START + SECTOR_SIZE)
  {
  }
}
