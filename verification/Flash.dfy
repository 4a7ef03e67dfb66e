/** The flash driver: bounds, write protection, erase and program over a byte array. */
module Flash {
  import opened Bytes

  const SECTOR_SIZE := 4096
  const TOTAL_SIZE := 512 * 1024

  type Memory = m: seq<Byte> | |m| == TOTAL_SIZE witness seq(TOTAL_SIZE, _ => 0xFF)

  datatype Error = Ok | InvalidParam | OutOfRange | WriteProtected

  /** The protected window; it lives in RAM, so a reset clears it. */
  datatype Protection = Unprotected | Protected(start: nat, size: nat)

  predicate AddressValid(address: nat, size: nat) {
    size <= TOTAL_SIZE && address <= TOTAL_SIZE - size
  }

  /** Protection test with the driver's 32-bit additions. */
  predicate ProtectedRange(p: Protection, address: nat, size: nat) {
    match p
    case Unprotected => false
    case Protected(start, length) =>
      var end := (address + size) % 0x1_0000_0000;
      var protectedEnd := (start + length) % 0x1_0000_0000;
      !(end <= start || address >= protectedEnd)
  }

  predicate Within(i: nat, from: nat, size: nat) { from <= i < from + size }

  /** Some byte of the range lies in the protected window. */
  ghost predicate Overlaps(p: Protection, address: nat, size: nat) {
    p.Protected? && exists i: nat :: Within(i, address, size) && Within(i, p.start, p.size)
  }

  /**
   * In a window on the flash every write or erase that meets it is found, and no other; an empty one acts as a point.
   */
  lemma ProtectionExact(p: Protection, address: nat, size: nat)
    requires p.Protected? && AddressValid(p.start, p.size) && AddressValid(address, size) && size > 0
    ensures ProtectedRange(p, address, size) <==>
      Overlaps(p, address, size) || (p.size == 0 && address < p.start < address + size)
  {
    var first := if address < p.start then p.start else address;
    assert ProtectedRange(p, address, size) && p.size > 0 ==>
      Within(first, address, size) && Within(first, p.start, p.size);
  }

  function SectorOf(address: nat): nat { address / SECTOR_SIZE * SECTOR_SIZE }

  /** Where a range erase ends, computed in 32 bits. */
  function EndSector(start: Word, size: Word): nat {
    SectorOf((start + size + SECTOR_SIZE - 1) % 0x1_0000_0000)
  }

  /** A range erase ends behind its range if and only if the sum does not wrap around 32 bits. */
  lemma EndSectorExact(start: Word, size: Word)
    ensures start + size <= EndSector(start, size) <==> start + size + SECTOR_SIZE - 1 < 0x1_0000_0000
  {
    var w: int := start + size + SECTOR_SIZE - 1;
    if w >= 0x1_0000_0000 { assert w % 0x1_0000_0000 <= w - 0x1_0000_0000; }
  }

  function WriteError(p: Protection, address: nat, size: nat): Error {
    if size == 0 then InvalidParam
    else if !AddressValid(address, size) then OutOfRange
    else if ProtectedRange(p, address, size) then WriteProtected
    else Ok
  }

  function EraseError(p: Protection, address: nat): Error {
    if !AddressValid(SectorOf(address), SECTOR_SIZE) then OutOfRange
    else if ProtectedRange(p, SectorOf(address), SECTOR_SIZE) then WriteProtected
    else Ok
  }

  /** Memory with `data` stored at `at`. */
  function Program(m: Memory, at: nat, data: seq<Byte>): (r: Memory)
    requires at + |data| <= TOTAL_SIZE
  {
    seq(TOTAL_SIZE, i requires 0 <= i < TOTAL_SIZE => if at <= i < at + |data| then data[i - at] else m[i])
  }

  /** Memory with the sector starting at `at` in the erased state. */
  function Erased(m: Memory, at: nat): (r: Memory)
    requires at + SECTOR_SIZE <= TOTAL_SIZE
  {
    seq(TOTAL_SIZE, i requires 0 <= i < TOTAL_SIZE => if at <= i < at + SECTOR_SIZE then 0xFF else m[i])
  }

  /** The error of a range erase: the first failing sector stops it. */
  function EraseRangeError(p: Protection, from: nat, end: nat): Error
    decreases end - from
  {
    if from >= end then Ok
    else if EraseError(p, from) != Ok then EraseError(p, from)
    else EraseRangeError(p, from + SECTOR_SIZE, end)
  }

  /**
   * The contents of flash after each sector erase of a range erase.
   * A power loss leaves one of these memories, or the one before the call.
   */
  function EraseLog(m: Memory, p: Protection, from: nat, end: nat): seq<Memory>
    decreases end - from
  {
    if from >= end || EraseError(p, from) != Ok then []
    else [Erased(m, SectorOf(from))] + EraseLog(Erased(m, SectorOf(from)), p, from + SECTOR_SIZE, end)
  }

  /** The memory a list of successive contents ends in. */
  function Final(m: Memory, log: seq<Memory>): Memory {
    if log == [] then m else log[|log| - 1]
  }

  /** `m` and `m'` agree outside the half-open address range. */
  ghost predicate SameOutside(m: Memory, m': Memory, lo: int, hi: int) {
    forall i :: 0 <= i < TOTAL_SIZE && !(lo <= i < hi) ==> m[i] == m'[i]
  }

  /** Every successive content of a range erase agrees with the start outside the erased sectors. */
  lemma {:induction false} EraseLogConfined(m: Memory, p: Protection, from: nat, end: nat, k: nat)
    requires from % SECTOR_SIZE == 0 && end % SECTOR_SIZE == 0 && end <= TOTAL_SIZE
    requires k < |EraseLog(m, p, from, end)|
    ensures SameOutside(m, EraseLog(m, p, from, end)[k], from, end)
    decreases end - from
  {
    assert SectorOf(from) == from && from + SECTOR_SIZE <= end;
    if k > 0 { EraseLogConfined(Erased(m, from), p, from + SECTOR_SIZE, end, k - 1); }
  }

  /** A range erase that reports success leaves every byte of the range erased. */
  lemma {:induction false} EraseLogErases(m: Memory, p: Protection, from: nat, end: nat, i: nat)
    requires from % SECTOR_SIZE == 0 && end % SECTOR_SIZE == 0 && end <= TOTAL_SIZE
    requires EraseRangeError(p, from, end) == Ok && from <= i < end
    ensures Final(m, EraseLog(m, p, from, end))[i] == 0xFF
    decreases end - from
  {
    var m', log' := EraseStep(m, p, from, end);
    if i >= from + SECTOR_SIZE {
      EraseLogErases(m', p, from + SECTOR_SIZE, end, i);
    } else if log' != [] {
      EraseLogConfined(m', p, from + SECTOR_SIZE, end, |log'| - 1);
    }
  }

  /** The first sector of a range erase that succeeds, and what it goes through after that. */
  lemma EraseStep(m: Memory, p: Protection, from: nat, end: nat) returns (m': Memory, log': seq<Memory>)
    requires from % SECTOR_SIZE == 0 && end % SECTOR_SIZE == 0 && from < end <= TOTAL_SIZE
    requires EraseRangeError(p, from, end) == Ok
    ensures m' == Erased(m, from) && log' == EraseLog(m', p, from + SECTOR_SIZE, end) && from + SECTOR_SIZE <= end
    ensures EraseRangeError(p, from + SECTOR_SIZE, end) == Ok && Final(m, EraseLog(m, p, from, end)) == Final(m', log')
  {
    assert SectorOf(from) == from && from + SECTOR_SIZE <= end;
    m' := Erased(m, SectorOf(from));
    log' := EraseLog(m', p, from + SECTOR_SIZE, end);
  }

  /** A range erase from `start` that has reached `addr`, having gone through the contents `done`. */
  ghost predicate Progress(m0: Memory, m: Memory, p: Protection, start: nat, addr: nat, end: nat, done: seq<Memory>) {
    && m == Final(m0, done)
    && EraseLog(m0, p, start, end) == done + EraseLog(m, p, addr, end)
    && EraseRangeError(p, start, end) == EraseRangeError(p, addr, end)
  }

  lemma ProgressStep(m0: Memory, m: Memory, p: Protection, start: nat, addr: nat, end: nat, done: seq<Memory>)
    requires Progress(m0, m, p, start, addr, end, done) && addr < end && EraseError(p, addr) == Ok
    ensures var m' := Erased(m, SectorOf(addr)); Progress(m0, m', p, start, addr + SECTOR_SIZE, end, done + [m'])
  {
    var m' := Erased(m, SectorOf(addr));
    var rest := EraseLog(m', p, addr + SECTOR_SIZE, end);
    assert EraseLog(m, p, addr, end) == [m'] + rest;
    assert done + ([m'] + rest) == (done + [m']) + rest;
  }

  lemma ProgressStops(m0: Memory, m: Memory, p: Protection, start: nat, addr: nat, end: nat, done: seq<Memory>)
    requires Progress(m0, m, p, start, addr, end, done) && (addr >= end || EraseError(p, addr) != Ok)
    ensures EraseLog(m0, p, start, end) == done
    ensures EraseRangeError(p, start, end) == if addr >= end then Ok else EraseError(p, addr)
  {
    assert EraseLog(m, p, addr, end) == [];
  }

  /** The device: `log` records the contents after every call that changed the array. */
  class Device {
    const mem: array<Byte>
    var protection: Protection
    ghost var log: seq<Memory>

    ghost predicate Valid()
      reads this
    {
      mem.Length == TOTAL_SIZE
    }

    /** Power-up over cells that survived the reset; protection is off and no call has been made. */
    constructor (cells: array<Byte>)
      requires cells.Length == TOTAL_SIZE
      ensures Valid() && mem == cells && protection == Unprotected && log == []
    {
      mem, protection, log := cells, Unprotected, [];
    }

    ghost function Contents(): Memory
      requires Valid()
      reads this, mem
    {
      mem[..]
    }

    method Read(address: nat, size: nat) returns (err: Error, data: seq<Byte>)
      requires Valid()
      ensures err == if size == 0 then InvalidParam else if !AddressValid(address, size) then OutOfRange else Ok
      ensures err == Ok ==> data == Contents()[address..address + size]
    {
      if size == 0 { return InvalidParam, []; }
      if !AddressValid(address, size) { return OutOfRange, []; }
      return Ok, mem[address..address + size];
    }

    method Write(address: nat, data: seq<Byte>) returns (err: Error)
      requires Valid()
      modifies mem, this`log
      ensures err == WriteError(protection, address, |data|)
      ensures err == Ok ==> Contents() == Program(old(Contents()), address, data) && log == old(log) + [Contents()]
      ensures err != Ok ==> Contents() == old(Contents()) && log == old(log)
    {
      if |data| == 0 { return InvalidParam; }
      if !AddressValid(address, |data|) { return OutOfRange; }
      if ProtectedRange(protection, address, |data|) { return WriteProtected; }
      Copy(address, data);
      log := log + [Contents()];
      return Ok;
    }

    method EraseSector(address: nat) returns (err: Error)
      requires Valid()
      modifies mem, this`log
      ensures err == EraseError(protection, address)
      ensures err == Ok ==> Contents() == Erased(old(Contents()), SectorOf(address)) && log == old(log) + [Contents()]
      ensures err != Ok ==> Contents() == old(Contents()) && log == old(log)
    {
      var sector := SectorOf(address);
      if !AddressValid(sector, SECTOR_SIZE) { return OutOfRange; }
      if ProtectedRange(protection, sector, SECTOR_SIZE) { return WriteProtected; }
      Copy(sector, seq(SECTOR_SIZE, _ => 0xFF));
      log := log + [Contents()];
      return Ok;
    }

    /** The storage primitive behind program and erase. */
    method Copy(at: nat, data: seq<Byte>)
      requires Valid() && at + |data| <= TOTAL_SIZE
      modifies mem
      ensures Contents() == Program(old(Contents()), at, data)
    {
      for k := 0 to |data|
        invariant forall i :: 0 <= i < TOTAL_SIZE ==>
          mem[i] == if at <= i < at + k then data[i - at] else old(mem[i])
      {
        mem[at + k] := data[k];
      }
    }

    /** A range erase under way: the device has gone through `done` since it held `m0`. */
    ghost predicate Erasing(m0: Memory, before: seq<Memory>, start: nat, addr: nat, end: nat, done: seq<Memory>)
      reads this, mem
    {
      Valid() && log == before + done && Progress(m0, Contents(), protection, start, addr, end, done)
    }

    method EraseNext(addr: nat, end: nat, ghost m0: Memory, ghost before: seq<Memory>, ghost start: nat,
        ghost done: seq<Memory>)
      returns (err: Error, ghost done': seq<Memory>)
      requires Erasing(m0, before, start, addr, end, done) && addr < end
      modifies mem, this`log
      ensures err == EraseError(protection, addr)
      ensures err == Ok ==> Erasing(m0, before, start, addr + SECTOR_SIZE, end, done')
      ensures err != Ok ==> Erasing(m0, before, start, addr, end, done')
    {
      ghost var m := Contents();
      done' := done;
      err := EraseSector(addr);
      if err == Ok {
        ProgressStep(m0, m, protection, start, addr, end, done);
        done' := done + [Contents()];
      }
    }

    method EraseRange(start: Word, size: Word) returns (err: Error)
      requires Valid()
      modifies mem, this`log
      ensures Valid()
      ensures var from, end := SectorOf(start), EndSector(start, size);
              && err == EraseRangeError(protection, from, end)
              && log == old(log) + EraseLog(old(Contents()), protection, from, end)
              && Contents() == Final(old(Contents()), EraseLog(old(Contents()), protection, from, end))
    {
      ghost var m0, before, from, done: seq<Memory> := Contents(), log, SectorOf(start), [];
      var end := SectorOf((start + size + SECTOR_SIZE - 1) % 0x1_0000_0000);
      var addr := SectorOf(start);
      while addr < end
        invariant Erasing(m0, before, from, addr, end, done)
        decreases end - addr
      {
        err, done := EraseNext(addr, end, m0, before, from, done);
        if err != Ok {
          ProgressStops(m0, Contents(), protection, from, addr, end, done);
          return;
        }
        addr := addr + SECTOR_SIZE;
      }
      ProgressStops(m0, Contents(), protection, from, addr, end, done);
      err := Ok;
    }
  }
}
