/**
  The SPI NOR flash and its driver (spiflash_drv.c). The chip obeys its command set:
  programming can only clear bits, an erase sets a whole block to 0xFF, both need the
  write-enable latch and an unlocked status register, and every such command drops the latch.
 */
module SpiFlashDrv {
  import opened MachineWords
  import opened Buffers

  const CHIP_SIZE: nat := 0x20_0000
  const PROTECT_ALL: byte := 0xBC
  const PROTECT_NONE: byte := 0x00

  datatype Command =
    | WriteEnable
    | WriteDisable
    | WriteStatus(value: byte)
    | Program(addr: nat, data: byte)
    | Erase(from: nat, length: nat)

  datatype Chip = Chip(cells: seq<byte>, protect: byte, latch: bool)

  function Erased(cells: seq<byte>, from: nat, length: nat): (r: seq<byte>)
    requires from + length <= |cells|
    ensures SameOutside(cells, r, from, from + length)
    ensures forall i | from <= i < from + length :: r[i] == BLANK
  {
    cells[..from] + seq(length, _ => BLANK) + cells[from + length..]
  }

  predicate InChip(c: Command) {
    match c
    case Program(addr, _) => addr < CHIP_SIZE
    case Erase(from, length) => from + length <= CHIP_SIZE
    case _ => true
  }

  /** What the chip does with one command. */
  function Respond(chip: Chip, c: Command): Chip
    requires |chip.cells| == CHIP_SIZE && InChip(c)
  {
    match c
    case WriteEnable => chip.(latch := true)
    case WriteDisable => chip.(latch := false)
    case WriteStatus(v) =>
      if chip.latch then chip.(protect := v, latch := false) else chip
    case Program(a, d) =>
      if chip.latch && chip.protect == PROTECT_NONE
      then chip.(cells := chip.cells[a := chip.cells[a] & d], latch := false)
      else chip.(latch := false)
    case Erase(from, length) =>
      if chip.latch && chip.protect == PROTECT_NONE
      then chip.(cells := Erased(chip.cells, from, length), latch := false)
      else chip.(latch := false)
  }

  /** Only enabled commands on an unlocked chip change a cell: programming clears bits, erasing sets them all. */
  lemma CellsChange(chip: Chip, c: Command, i: nat)
    requires |chip.cells| == CHIP_SIZE && InChip(c) && i < CHIP_SIZE
    ensures var was, now := chip.cells[i], Respond(chip, c).cells[i];
      if chip.latch && chip.protect == 0x00 && c.Program? && c.addr == i then now == was & c.data
      else if chip.latch && chip.protect == 0x00 && c.Erase? && c.from <= i < c.from + c.length then now == 0xFF
      else now == was
    ensures Respond(chip, c).latch <==> c == WriteEnable
    ensures Respond(chip, c).protect == if chip.latch && c.WriteStatus? then c.value else chip.protect
  {}

  /** An erase or program command: the cells before it and the stretch it may touch. */
  datatype Access = Access(before: seq<byte>, lo: nat, hi: nat)

  /**
    The cells a power cut during the access may leave: anything at all in the stretch the
    command was working on, so in particular the cells before it and after it.
   */
  ghost predicate CutState(a: Access, cells: seq<byte>) {
    SameOutside(a.before, cells, a.lo, a.hi)
  }

  /** Since position `from`, every access stayed inside [lo, hi) of cells that were `base` outside it. */
  ghost predicate Confined(log: seq<Access>, from: nat, base: seq<byte>, lo: nat, hi: nat) {
    forall k | from <= k < |log| ::
      lo <= log[k].lo <= log[k].hi <= hi && SameOutside(base, log[k].before, lo, hi)
  }

  lemma ConfinedNothing(log: seq<Access>, base: seq<byte>, lo: nat, hi: nat)
    ensures Confined(log, |log|, base, lo, hi)
  {}

  lemma ConfinedNext(log: seq<Access>, from: nat, base: seq<byte>, lo: nat, hi: nat, a: Access)
    requires Confined(log, from, base, lo, hi)
    requires lo <= a.lo <= a.hi <= hi && SameOutside(base, a.before, lo, hi)
    ensures Confined(log + [a], from, base, lo, hi)
  {}

  class NorFlash {
    var chip: Chip
    /** Every erase and program command sent so far. */
    ghost var log: seq<Access>

    ghost predicate Valid()
      reads this
    {
      |chip.cells| == CHIP_SIZE
    }

    ghost function Cells(): seq<byte>
      reads this
    {
      chip.cells
    }

    predicate Writable()
      reads this
    {
      chip.protect == PROTECT_NONE
    }

    constructor (chip: Chip)
      requires |chip.cells| == CHIP_SIZE
      ensures Valid() && this.chip == chip && log == [] && |Cells()| == 0x20_0000
    {
      this.chip := chip;
      log := [];
    }

    method Cmd(c: Command)
      requires Valid() && InChip(c)
      modifies this
      ensures Valid() && chip == Respond(old(chip), c)
      ensures match c
              case Program(a, _) => log == old(log) + [Access(old(Cells()), a, a + 1)]
              case Erase(from, length) => log == old(log) + [Access(old(Cells()), from, from + length)]
              case _ => log == old(log)
    {
      match c {
        case Program(a, _) => log := log + [Access(chip.cells, a, a + 1)];
        case Erase(from, length) => log := log + [Access(chip.cells, from, from + length)];
        case _ =>
      }
      chip := Respond(chip, c);
    }

    method Wren(on: bool)
      requires Valid()
      modifies this
      ensures Valid() && log == old(log)
      ensures chip == old(chip).(latch := on)
    {
      Cmd(if on then WriteEnable else WriteDisable);
    }

    method WrsrUnlock(unlock: bool)
      requires Valid()
      modifies this
      ensures Valid() && log == old(log)
      ensures chip == Chip(old(Cells()), if unlock then 0x00 else 0xBC, false)
    {
      Wren(true);
      Cmd(WriteStatus(if unlock then PROTECT_NONE else PROTECT_ALL));
    }

    /** Erases whatever the lock state was, and leaves the chip unlocked. */
    method EraseRange(from: nat, length: nat)
      requires Valid() && from + length <= CHIP_SIZE
      modifies this
      ensures Valid() && Writable()
      ensures Cells() == Erased(old(Cells()), from, length)
      ensures log == old(log) + [Access(old(Cells()), from, from + length)]
    {
      WrsrUnlock(true);
      Wren(true);
      Cmd(Erase(from, length));
    }

    method EraseBlock(id: nat, block64: bool)
      requires Valid() && (id + 1) * (if block64 then 0x1_0000 else 0x8000) <= CHIP_SIZE
      modifies this
      ensures Valid() && Writable()
      ensures var length := if block64 then 0x1_0000 else 0x8000;
              && Cells() == Erased(old(Cells()), id * length, length)
              && log == old(log) + [Access(old(Cells()), id * length, id * length + length)]
    {
      if block64 {
        EraseRange(id * 0x1_0000, 0x1_0000);
      } else {
        EraseRange(id * 0x8000, 0x8000);
      }
    }

    method EraseSector(id: nat)
      requires Valid() && (id + 1) * 0x1000 <= CHIP_SIZE
      modifies this
      ensures Valid() && Writable()
      ensures Cells() == Erased(old(Cells()), id * 0x1000, 0x1000)
      ensures log == old(log) + [Access(old(Cells()), id * 0x1000, id * 0x1000 + 0x1000)]
    {
      EraseRange(id * 0x1000, 0x1000);
    }

    /** Erases 0-256K three times over, in 64K blocks, 32K blocks and 4K sectors. */
    method EraseLower256k()
      requires Valid()
      modifies this
      ensures Valid() && Writable()
      ensures Cells() == Erased(old(Cells()), 0, 0x4_0000)
      ensures old(log) <= log && Confined(log, |old(log)|, old(Cells()), 0, 0x4_0000)
      ensures |log| > |old(log)| && log[|old(log)|] == Access(old(Cells()), 0, 0x1_0000)
    {
      hide Confined, SameOutside, Erased;
      ghost var was, from := Cells(), |log|;
      ErasedNothing(was, 0);
      ConfinedNothing(log, was, 0, 0x4_0000);
      for id := 0 to 4
        invariant Valid() && (id > 0 ==> Writable())
        invariant Cells() == Erased(was, 0, id * 0x1_0000)
        invariant if id == 0 then log == old(log) else |log| > from && log[from] == Access(was, 0, 0x1_0000)
        invariant old(log) <= log && Confined(log, from, was, 0, 0x4_0000)
      {
        EraseStaysIn(log, from, was, 0, id * 0x1_0000, 0x4_0000, id * 0x1_0000, 0x1_0000);
        EraseBlock(id, true);
        EraseExtends(was, 0, id * 0x1_0000, 0x1_0000);
      }
      for id := 0 to 8
        invariant Valid() && Writable()
        invariant Cells() == Erased(was, 0, 0x4_0000)
        invariant |log| > from && log[from] == Access(was, 0, 0x1_0000)
        invariant old(log) <= log && Confined(log, from, was, 0, 0x4_0000)
      {
        EraseStaysIn(log, from, was, 0, 0x4_0000, 0x4_0000, id * 0x8000, 0x8000);
        EraseBlock(id, false);
        EraseAgain(was, 0, 0x4_0000, id * 0x8000, 0x8000);
      }
      for id := 0 to 64
        invariant Valid() && Writable()
        invariant Cells() == Erased(was, 0, 0x4_0000)
        invariant |log| > from && log[from] == Access(was, 0, 0x1_0000)
        invariant old(log) <= log && Confined(log, from, was, 0, 0x4_0000)
      {
        EraseStaysIn(log, from, was, 0, 0x4_0000, 0x4_0000, id * 0x1000, 0x1000);
        EraseSector(id);
        EraseAgain(was, 0, 0x4_0000, id * 0x1000, 0x1000);
      }
    }

    /** Erases 256K-576K: the backup image at 0x50000-0x87FFF and what surrounds it. */
    method EraseBackup256k()
      requires Valid()
      modifies this
      ensures Valid() && Writable()
      ensures Cells() == Erased(old(Cells()), 0x4_0000, 0x5_0000)
      ensures old(log) <= log && Confined(log, |old(log)|, old(Cells()), 0x4_0000, 0x9_0000)
    {
      hide Confined, SameOutside, Erased;
      ghost var was, from := Cells(), |log|;
      ErasedNothing(was, 0x4_0000);
      ConfinedNothing(log, was, 0x4_0000, 0x9_0000);
      for id := 4 to 9
        invariant Valid() && (id > 4 ==> Writable())
        invariant Cells() == Erased(was, 0x4_0000, (id - 4) * 0x1_0000)
        invariant old(log) <= log && Confined(log, from, was, 0x4_0000, 0x9_0000)
      {
        EraseStaysIn(log, from, was, 0x4_0000, (id - 4) * 0x1_0000, 0x9_0000, id * 0x1_0000, 0x1_0000);
        EraseBlock(id, true);
        EraseExtends(was, 0x4_0000, (id - 4) * 0x1_0000, 0x1_0000);
      }
      for id := 8 to 18
        invariant Valid() && Writable()
        invariant Cells() == Erased(was, 0x4_0000, 0x5_0000)
        invariant old(log) <= log && Confined(log, from, was, 0x4_0000, 0x9_0000)
      {
        EraseStaysIn(log, from, was, 0x4_0000, 0x5_0000, 0x9_0000, id * 0x8000, 0x8000);
        EraseBlock(id, false);
        EraseAgain(was, 0x4_0000, 0x5_0000, id * 0x8000, 0x8000);
      }
      for id := 64 to 144
        invariant Valid() && Writable()
        invariant Cells() == Erased(was, 0x4_0000, 0x5_0000)
        invariant old(log) <= log && Confined(log, from, was, 0x4_0000, 0x9_0000)
      {
        EraseStaysIn(log, from, was, 0x4_0000, 0x5_0000, 0x9_0000, id * 0x1000, 0x1000);
        EraseSector(id);
        EraseAgain(was, 0x4_0000, 0x5_0000, id * 0x1000, 0x1000);
      }
    }

    method WriteByte(addr: nat, data: byte)
      requires Valid() && addr < CHIP_SIZE
      modifies this
      ensures Valid() && chip.protect == old(chip).protect
      ensures Cells() == if old(Writable()) then old(Cells())[addr := old(Cells())[addr] & data] else old(Cells())
      ensures log == old(log) + [Access(old(Cells()), addr, addr + 1)]
    {
      Wren(true);
      Cmd(Program(addr, data));
    }

    method ReadByte(addr: nat) returns (data: byte)
      requires Valid() && addr < CHIP_SIZE
      ensures data == Cells()[addr]
    {
      data := chip.cells[addr];
    }
  }

  lemma ErasedNothing(cells: seq<byte>, from: nat)
    requires from <= |cells|
    ensures Erased(cells, from, 0) == cells
  {}

  /** One more erase inside the range, after a part of it has been erased. */
  lemma EraseStaysIn(log: seq<Access>, from: nat, was: seq<byte>, lo: nat, done: nat, hi: nat, at: nat, part: nat)
    requires lo + done <= hi <= |was| && lo <= at && at + part <= hi && Confined(log, from, was, lo, hi)
    ensures Confined(log + [Access(Erased(was, lo, done), at, at + part)], from, was, lo, hi)
  {}

  lemma EraseExtends(cells: seq<byte>, from: nat, done: nat, more: nat)
    requires from + done + more <= |cells|
    ensures Erased(Erased(cells, from, done), from + done, more) == Erased(cells, from, done + more)
  {
    var l, r := Erased(Erased(cells, from, done), from + done, more), Erased(cells, from, done + more);
    assert forall i | 0 <= i < |cells| :: l[i] == r[i];
  }

  lemma EraseAgain(cells: seq<byte>, from: nat, length: nat, at: nat, part: nat)
    requires from + length <= |cells| && from <= at && at + part <= from + length
    ensures Erased(Erased(cells, from, length), at, part) == Erased(cells, from, length)
  {
    var l, r := Erased(Erased(cells, from, length), at, part), Erased(cells, from, length);
    assert forall i | 0 <= i < |cells| :: l[i] == r[i];
  }
}
