/**
  The boot loader's flash operations (spiflash.c): downloading a firmware image over the
  serial port, backing it up, restoring it, and booting from it.
 */
module Bootloader {
  import opened MachineWords
  import opened Buffers
  import opened CodeMemory
  import opened SpiFlashDrv
  import opened HexFile
  import opened HexText
  import opened FlashImage
  import Crc

  // ------------------------------------------------------------ what a download reads

  /** memUtil_ClearEram: everything from 0x2100 on is blanked. */
  function Cleared(mem: seq<byte>): (m: seq<byte>)
    requires |mem| == COM_BANK0_LEN
    ensures |m| == COM_BANK0_LEN
  {
    mem[..0x100] + seq(0xDF00, _ => BLANK)
  }

  /** The eight texts of a download: the bank codes loaded, or where and why it stopped. */
  datatype BankRun =
    | AllRead(wins: seq<seq<byte>>, pos: nat)
    | BadText(wins: seq<seq<byte>>)
    | Hung(wins: seq<seq<byte>>, why: Outcome)

  function Prefixed(wins: seq<seq<byte>>, r: BankRun): BankRun { r.(wins := wins + r.wins) }

  function BankRuns(u: seq<byte>, pos: nat, c: nat, ram: Ram): BankRun
    requires pos <= |u| && c <= NUM_OF_BANK && ram.Valid()
    decreases NUM_OF_BANK - c
  {
    if c == NUM_OF_BANK then AllRead([], pos)
    else
      match Parse(Cleared(ram.View(c)), 0, u, pos)
      case Finished(errs, mem, _, q) =>
        if errs[ERR_CHK_SUME] != 0 then BadText([])
        else Prefixed([Code(c, mem)], BankRuns(u, q, c + 1, ram.WithView(c, mem)))
      case o => Hung([], o)
  }

  lemma PrefixedTwice(a: seq<seq<byte>>, w: seq<byte>, r: BankRun)
    ensures Prefixed(a, Prefixed([w], r)) == Prefixed(a + [w], r)
  {
    assert a + ([w] + r.wins) == (a + [w]) + r.wins;
  }

  lemma PrefixedNothing(r: BankRun)
    ensures Prefixed([], r) == r
  {
    assert [] + r.wins == r.wins;
  }

  lemma BankRunsNext(u: seq<byte>, pos: nat, c: nat, ram: Ram, wins: seq<seq<byte>>)
    requires pos <= |u| && c < NUM_OF_BANK && ram.Valid()
    ensures Prefixed(wins, BankRuns(u, pos, c, ram)) ==
      match Parse(Cleared(ram.View(c)), 0, u, pos)
      case Finished(errs, mem, _, q) =>
        if errs[ERR_CHK_SUME] != 0 then BadText(wins)
        else Prefixed(wins + [Code(c, mem)], BankRuns(u, q, c + 1, ram.WithView(c, mem)))
      case o => Hung(wins, o)
  {
    hide Parse, Cleared, Code, Ram.View, Ram.WithView;
    assert wins + [] == wins;
    match Parse(Cleared(ram.View(c)), 0, u, pos) {
      case Finished(errs, mem, _, q) =>
        if errs[ERR_CHK_SUME] == 0 {
          PrefixedTwice(wins, Code(c, mem), BankRuns(u, q, c + 1, ram.WithView(c, mem)));
        }
      case _ =>
    }
  }

  lemma BankRunsEnd(u: seq<byte>, pos: nat, ram: Ram, wins: seq<seq<byte>>)
    requires pos <= |u| && ram.Valid()
    ensures Prefixed(wins, BankRuns(u, pos, NUM_OF_BANK, ram)) == AllRead(wins, pos)
  {
    assert wins + [] == wins;
  }

  /** The first address programmed from, and how many bytes, at least one. */
  function CodeStart(c: nat): nat { if c == 0 then CRAM_START else BANKADDR_L }

  function ProgrammedBytes(c: nat, top: nat): nat {
    if top < CodeStart(c) then 1 else top - CodeStart(c) + 1
  }

  datatype Downloaded = Success | Failed | Hanging(why: Outcome)

  datatype BankStatus = BankDone | BankBad | BankHangs(why: Outcome)

  class BootLoader {
    const loader: HexLoader
    const flash: NorFlash
    /** SflashAddr, Addr32_1 and Eram2SflashAddr */
    var sflashAddr: nat
    var addr32: nat
    var eram2Sflash: nat

    ghost predicate Valid()
      reads this, loader, loader.uart, loader.cram, flash
    {
      loader.Valid() && flash.Valid()
    }

    constructor (loader: HexLoader, flash: NorFlash)
      requires loader.Valid() && flash.Valid()
      ensures Valid() && this.loader == loader && this.flash == flash
    {
      this.loader, this.flash := loader, flash;
      sflashAddr, addr32, eram2Sflash := 0, 0, 0;
    }

    // ---------------------------------------------------------- copying images

    /** Programs one byte and reads it back. */
    method ProgramByte(addr: nat, data: byte) returns (ok: bool)
      requires flash.Valid() && addr < CHIP_SIZE
      modifies flash
      ensures flash.Valid() && flash.chip.protect == old(flash.chip.protect)
      ensures ok ==> flash.Cells() == old(flash.Cells())[addr := data]
      ensures old(flash.Writable()) && old(flash.Cells())[addr] == BLANK ==> ok
      ensures flash.log == old(flash.log) + [Access(old(flash.Cells()), addr, addr + 1)]
    {
      BlankTakesAll(data);
      flash.WriteByte(addr, data);
      var back := flash.ReadByte(addr);
      ok := back == data;
    }

    /** Copies an image's length byte by byte, reading every byte back. */
    method CopyImage(from: nat, to: nat) returns (ok: bool)
      requires flash.Valid() && from + IMAGE_LEN <= CHIP_SIZE && to + IMAGE_LEN <= CHIP_SIZE
      requires from + IMAGE_LEN <= to || to + IMAGE_LEN <= from
      modifies this`sflashAddr, this`addr32, flash
      ensures flash.Valid() && flash.chip.protect == old(flash.chip.protect)
      ensures ok ==> flash.Cells() == Splice(old(flash.Cells()), to, old(flash.Cells())[from..from + IMAGE_LEN])
      ensures old(flash.Writable()) && (forall i | to <= i < to + IMAGE_LEN :: old(flash.Cells())[i] == BLANK) ==> ok
      ensures old(flash.log) <= flash.log
      ensures Confined(flash.log, |old(flash.log)|, old(flash.Cells()), to, to + IMAGE_LEN)
    {
      hide Splice, Confined, SameOutside;
      ghost var was, src := flash.Cells(), flash.Cells()[from..from + IMAGE_LEN];
      ghost var n := |flash.log|;
      var k := 0;
      sflashAddr, addr32 := from, to;
      SpliceNothing(was, to);
      ConfinedNothing(flash.log, was, to, to + IMAGE_LEN);
      while k < IMAGE_LEN
        invariant 0 <= k <= IMAGE_LEN && sflashAddr == from + k && addr32 == to + k
        invariant flash.Valid() && flash.chip.protect == old(flash.chip.protect)
        invariant flash.Cells() == Splice(was, to, src[..k])
        invariant old(flash.log) <= flash.log && Confined(flash.log, n, was, to, to + IMAGE_LEN)
      {
        SpliceElsewhere(was, to, src[..k], from + k);
        ProgrammingStep(was, to, src, k, flash.log, n, to, to + IMAGE_LEN);
        var data := flash.ReadByte(sflashAddr);
        ok := ProgramByte(addr32, data);
        if !ok {
          return;
        }
        k, sflashAddr, addr32 := k + 1, sflashAddr + 1, addr32 + 1;
      }
      assert src[..IMAGE_LEN] == src;
      return true;
    }

    /** spiflash_BackupCodeImage(1) */
    method BackupCodeImage() returns (ok: bool)
      requires flash.Valid()
      modifies this`sflashAddr, this`addr32, flash
      ensures flash.Valid() && ok && !flash.Writable()
      ensures Backup(flash.Cells()) == Primary(old(flash.Cells()))
      ensures SameOutside(old(flash.Cells()), flash.Cells(), PRIMARY_ERASE, BACKUP_ERASE)
      ensures old(flash.log) <= flash.log
      ensures Confined(flash.log, |old(flash.log)|, old(flash.Cells()), PRIMARY_ERASE, BACKUP_ERASE)
      ensures ValidImage(Primary(old(flash.Cells()))) ==> AlwaysSafe(flash.log, |old(flash.log)|)
    {
      hide ValidImage, AlwaysSafe;
      ghost var was := flash.Cells();
      flash.WrsrUnlock(true);
      flash.EraseBackup256k();
      ghost var mid, before := flash.Cells(), flash.log;
      SameSlice(was, mid, PRIMARY_ERASE, BACKUP_ERASE, 0, IMAGE_LEN);
      ok := CopyImage(0, BACKUP_START);
      ConfinedTwice(flash.log, |old(flash.log)|, before, was, mid,
        PRIMARY_ERASE, BACKUP_ERASE, BACKUP_START, BACKUP_START + IMAGE_LEN);
      if ValidImage(Primary(was)) { SafeWithPrimary(flash.log, |old(flash.log)|, was); }
      flash.WrsrUnlock(false);
    }

    /** The CRC of one bank of the backup, read byte by byte. */
    method BackupBankCrc(bank: nat) returns (crc: word)
      requires flash.Valid() && bank < NUM_OF_BANK
      modifies this`addr32
      ensures flash.Valid() && crc == Crc.Of(Window(Backup(flash.Cells()), bank))
    {
      hide Window, Backup;
      ghost var win := Window(Backup(flash.Cells()), bank);
      var size := if bank == 0 then 0xDF00 else CBANK_LEN;
      var base := if bank == 0 then BACKUP_START + 0x100 else BACKUP_START + 0xE000 + size * (bank - 1);
      crc := 0;
      addr32 := 0;
      while addr32 < size
        invariant addr32 <= size
        invariant crc == Crc.Of(win[..addr32])
      {
        var data := flash.ReadByte(base + addr32);
        BackupAt(flash.Cells(), bank, addr32);
        crc := Crc.Update(crc, data);
        PrefixNext(win, addr32);
        addr32 := addr32 + 1;
      }
      assert win[..size] == win;
    }

    /** The loop over the backup's banks, up to the first with a wrong CRC. */
    method BackupIntact() returns (intact: bool)
      requires flash.Valid()
      modifies this`addr32
      ensures intact <==> ValidImage(Backup(flash.Cells()))
    {
      hide Crc.Of, Lo8, Hi8;
      ghost var image := Backup(flash.Cells());
      var bank := 0;
      intact := true;
      while bank < NUM_OF_BANK && intact
        invariant 0 <= bank <= NUM_OF_BANK
        invariant intact ==> forall b | 0 <= b < bank :: ValidBank(image, b)
        invariant !intact ==> !ValidImage(image)
        decreases NUM_OF_BANK - bank, intact
      {
        var crc := BackupBankCrc(bank);
        var low := flash.ReadByte(BACKUP_START + bank * 2);
        var high := flash.ReadByte(BACKUP_START + bank * 2 + 1);
        assert low == image[2 * bank] && high == image[2 * bank + 1];
        if low != Lo8(crc) || high != Hi8(crc) {
          intact := false;
          assert !ValidBank(image, bank);
        } else {
          bank := bank + 1;
        }
      }
    }

    /** spiflash_RestoreCodeImage(1): nothing is erased before all eight backup CRCs have matched. */
    method RestoreCodeImage() returns (restored: bool)
      requires flash.Valid()
      modifies this`sflashAddr, this`addr32, flash
      ensures flash.Valid() && !flash.Writable()
      ensures restored <==> ValidImage(Backup(old(flash.Cells())))
      ensures !restored ==> flash.Cells() == old(flash.Cells()) && flash.log == old(flash.log)
      ensures restored ==> Primary(flash.Cells()) == Backup(old(flash.Cells()))
      ensures SameOutside(old(flash.Cells()), flash.Cells(), 0, PRIMARY_ERASE)
      ensures old(flash.log) <= flash.log
      ensures Confined(flash.log, |old(flash.log)|, old(flash.Cells()), 0, PRIMARY_ERASE)
      ensures AlwaysSafe(flash.log, |old(flash.log)|)
    {
      hide Confined, Splice, AlwaysSafe, ValidImage;
      NothingUnsafe(flash.log);
      ghost var was := flash.Cells();
      ghost var image := Backup(was);
      ConfinedNothing(flash.log, was, 0, PRIMARY_ERASE);
      restored := BackupIntact();
      if restored {
        flash.EraseLower256k();
        ghost var mid, before := flash.Cells(), flash.log;
        SameSlice(was, mid, 0, PRIMARY_ERASE, BACKUP_START, BACKUP_START + IMAGE_LEN);
        restored := CopyImage(BACKUP_START, 0);
        SpliceHolds(mid, 0, image);
        SpliceOutside(mid, 0, image, 0, PRIMARY_ERASE);
        ConfinedTwice(flash.log, |old(flash.log)|, before, was, mid, 0, PRIMARY_ERASE, 0, IMAGE_LEN);
        SafeWithBackup(flash.log, |old(flash.log)|, was);
      }
      flash.WrsrUnlock(false);
    }

    // ---------------------------------------------------------- downloading

    /** memUtil_ClearEram(0xFF): Uart2EramAddr walks from 0x2100 to 0xFFFF. */
    method ClearEram()
      requires Valid()
      modifies loader`eramTop, loader.cram`ram
      ensures Valid() && loader.eramTop == 0xFFFF
      ensures loader.cram.View() == Cleared(old(loader.cram.View()))
      ensures forall k | 0 <= k < 0xE000 ::
        loader.cram.View()[k] == if k < 0x100 then old(loader.cram.View())[k] else 0xFF
      ensures loader.cram.ram == old(loader.cram.ram).WithView(loader.cram.bank, loader.cram.View())
    {
      hide Ram.View, Ram.WithView;
      ghost var was, ram, b := loader.cram.View(), loader.cram.ram, loader.cram.bank;
      WithOwnView(ram, b);
      loader.eramTop := 0x2100;
      while true
        invariant 0x2100 <= loader.eramTop <= 0xFFFF && loader.cram.Valid()
        invariant loader.cram.View() == BlankedTo(was, loader.eramTop - COMMONADDR_L)
        invariant loader.cram.ram == ram.WithView(b, loader.cram.View())
        decreases 0xFFFF - loader.eramTop
      {
        ghost var view := loader.cram.View();
        loader.cram.Write(loader.eramTop, BLANK);
        WithViewTwice(ram, b, view, loader.cram.View());
        BlankedNext(was, loader.eramTop - COMMONADDR_L);
        if loader.eramTop == 0xFFFF {
          return;
        }
        loader.eramTop := loader.eramTop + 1;
      }
    }

    /** The CRC of the selected bank's code in RAM. */
    method RamCrc(c: nat) returns (crc: word)
      requires loader.cram.Valid() && c == loader.cram.bank
      ensures crc == Crc.Of(Code(c, loader.cram.View()))
    {
      ghost var code := Code(c, loader.cram.View());
      var start, count := CodeStart(c), BankLen(c);
      crc := 0;
      for i := 0 to count
        invariant crc == Crc.Of(code[..i])
      {
        var data := loader.cram.Read(start + i);
        assert data == code[i];
        crc := Crc.Update(crc, data);
        PrefixNext(code, i);
      }
      assert code[..count] == code;
    }

    /** Programs the bank's code up to the high-water mark, reading every byte back. */
    method ProgramBank(c: nat) returns (ok: bool)
      requires loader.cram.Valid() && c == loader.cram.bank && loader.eramTop <= 0xFFFF && flash.Valid()
      modifies this`sflashAddr, this`eram2Sflash, flash
      ensures flash.Valid() && flash.chip.protect == old(flash.chip.protect)
      ensures var code := Code(c, loader.cram.View());
              var part := code[..ProgrammedBytes(c, loader.eramTop)];
              && (ok ==> flash.Cells() == Splice(old(flash.Cells()), BankLo(c), part))
              && (old(flash.Writable()) && BlankAt(old(flash.Cells()), BankLo(c), BankLen(c)) ==> ok)
      ensures old(flash.log) <= flash.log
      ensures Confined(flash.log, |old(flash.log)|, old(flash.Cells()), 0, PRIMARY_ERASE)
    {
      hide Splice, Confined, SameOutside, Code, Ram.View;
      ghost var was, code, n := flash.Cells(), Code(c, loader.cram.View()), |flash.log|;
      eram2Sflash := CodeStart(c);
      sflashAddr := if c == 0 then CRAM_START - 0x2000 else ((c - 1) * 6 + 0x10 - 0x02) * 0x1000;
      ghost var k := 0;
      SpliceNothing(was, BankLo(c));
      ConfinedNothing(flash.log, was, 0, PRIMARY_ERASE);
      while true
        invariant 0 <= k < ProgrammedBytes(c, loader.eramTop)
        invariant sflashAddr == BankLo(c) + k && eram2Sflash == CodeStart(c) + k
        invariant flash.Valid() && flash.chip.protect == old(flash.chip.protect)
        invariant flash.Cells() == Splice(was, BankLo(c), code[..k])
        invariant old(flash.log) <= flash.log && Confined(flash.log, n, was, 0, PRIMARY_ERASE)
        decreases ProgrammedBytes(c, loader.eramTop) - k
      {
        ProgrammingStep(was, BankLo(c), code, k, flash.log, n, 0, PRIMARY_ERASE);
        CodeAt(c, loader.cram.View(), k);
        var data := loader.cram.Read(eram2Sflash);
        ok := ProgramByte(sflashAddr, data);
        if !ok {
          return;
        }
        if eram2Sflash >= loader.eramTop {
          assert ProgrammedBytes(c, loader.eramTop) == k + 1;
          return;
        }
        k, sflashAddr, eram2Sflash := k + 1, sflashAddr + 1, eram2Sflash + 1;
      }
    }

    /** Writes the bank's CRC into the table, reading both bytes back. */
    method WriteCrc(c: nat, crc: word) returns (ok: bool)
      requires flash.Valid() && c < NUM_OF_BANK
      modifies flash
      ensures flash.Valid() && flash.chip.protect == old(flash.chip.protect)
      ensures ok ==> flash.Cells() == old(flash.Cells())[2 * c := Lo8(crc)][2 * c + 1 := Hi8(crc)]
      ensures old(flash.Writable()) && BlankAt(old(flash.Cells()), 2 * c, 2) ==> ok
      ensures old(flash.log) <= flash.log
      ensures Confined(flash.log, |old(flash.log)|, old(flash.Cells()), 0, PRIMARY_ERASE)
    {
      hide Lo8, Hi8;
      ok := ProgramByte(c * 2, Lo8(crc));
      if ok {
        ok := ProgramByte(c * 2 + 1, Hi8(crc));
      }
    }

    /** Programs the bank that is in RAM, and its CRC, behind the banks before it. */
    method ProgramAndSeal(c: nat, ghost wins: seq<seq<byte>>) returns (ok: bool)
      requires Valid() && c == |wins| == loader.cram.bank && flash.Writable() && Programs(flash.Cells(), wins)
      requires var code, k := Code(c, loader.cram.View()), ProgrammedBytes(c, loader.eramTop);
        k <= |code| && forall i | k <= i < |code| :: code[i] == BLANK
      modifies this`sflashAddr, this`eram2Sflash, flash
      ensures Valid() && flash.Writable() && ok
      ensures Programs(flash.Cells(), wins + [Code(c, loader.cram.View())])
      ensures old(flash.log) <= flash.log
      ensures SameOutside(old(flash.Cells()), flash.Cells(), 0, PRIMARY_ERASE)
      ensures Confined(flash.log, |old(flash.log)|, old(flash.Cells()), 0, PRIMARY_ERASE)
    {
      hide Ram.View, Crc.Of, Lo8, Hi8, Code, Splice, BlankAt, Confined, Programs;
      ghost var was := flash.Cells();
      BankIsBlank(was, wins);
      var crc := RamCrc(c);
      ok := ProgramBank(c);
      ghost var mid, before := flash.Cells(), flash.log;
      BankProgrammed(was, wins, Code(c, loader.cram.View()), ProgrammedBytes(c, loader.eramTop), mid);
      if ok {
        ok := WriteCrc(c, crc);
      }
      ConfinedTwice(flash.log, |old(flash.log)|, before, was, mid, 0, PRIMARY_ERASE, 0, PRIMARY_ERASE);
    }

    /** One pass of Program_Next_bank: load a text into RAM, then program the bank and its CRC. */
    method DownloadBank(c: nat, ghost wins: seq<seq<byte>>) returns (status: BankStatus)
      requires Valid() && c == |wins| < NUM_OF_BANK && flash.Writable() && Programs(flash.Cells(), wins)
      modifies this, loader, loader.uart, loader.cram, flash
      ensures Valid() && flash.Writable()
      ensures match Parse(Cleared(old(loader.cram.ram).View(c)), 0, loader.uart.data, old(loader.uart.pos))
              case Finished(errs, mem, _, q) =>
                && loader.uart.pos == q && loader.cram.ram == old(loader.cram.ram).WithView(c, mem)
                && status == (if errs[ERR_CHK_SUME] != 0 then BankBad else BankDone)
                && (status == BankDone ==> Programs(flash.Cells(), wins + [Code(c, mem)]))
              case o => status == BankHangs(o)
      ensures status != BankDone ==> flash.chip == old(flash.chip) && flash.log == old(flash.log)
      ensures old(flash.log) <= flash.log
      ensures SameOutside(old(flash.Cells()), flash.Cells(), 0, PRIMARY_ERASE)
      ensures Confined(flash.log, |old(flash.log)|, old(flash.Cells()), 0, PRIMARY_ERASE)
    {
      hide Parse, Cleared, Ram.View, Ram.WithView, Code, BlankAt, Confined, Programs;
      ghost var ram := loader.cram.ram;
      ConfinedNothing(flash.log, flash.Cells(), 0, PRIMARY_ERASE);
      loader.cram.Select(c);
      ClearEram();
      ghost var view := loader.cram.View();
      loader.eramTop := 0;
      var parsed := loader.ParseHexRecord();
      if parsed != Done {
        return BankHangs(parsed.why);
      }
      WithViewTwice(ram, c, view, loader.cram.View());
      if loader.errCnt[ERR_CHK_SUME] != 0 {
        return BankBad;
      }
      ClearedIsBlank(ram.View(c));
      TailIsBlank(view, loader.uart.data, old(loader.uart.pos), c);
      var ok := ProgramAndSeal(c, wins);
      return if ok then BankDone else BankBad;
    }

    /** Erases the primary area and programs bank after bank until all are done or one fails. */
    method EraseAndProgram() returns (status: BankStatus, ghost wins: seq<seq<byte>>)
      requires Valid()
      modifies this, loader, loader.uart, loader.cram, flash
      ensures Valid() && flash.Writable() && Programs(flash.Cells(), wins)
      ensures match BankRuns(loader.uart.data, old(loader.uart.pos), 0, old(loader.cram.ram))
              case AllRead(ws, q) =>
                status == BankDone && ws == wins && |wins| == NUM_OF_BANK && loader.uart.pos == q
              case BadText(ws) => status == BankBad && ws == wins
              case Hung(ws, o) => status == BankHangs(o) && ws == wins
      ensures old(flash.log) <= flash.log
      ensures |flash.log| > |old(flash.log)| && flash.log[|old(flash.log)|] == Access(old(flash.Cells()), 0, 0x1_0000)
      ensures SameOutside(old(flash.Cells()), flash.Cells(), 0, PRIMARY_ERASE)
      ensures Confined(flash.log, |old(flash.log)|, old(flash.Cells()), 0, PRIMARY_ERASE)
    {
      hide Programs, Confined, SameOutside, Code, Ram.View, Ram.WithView, Parse, Cleared, BankRuns, Prefixed;
      ghost var was, from := flash.Cells(), |flash.log|;
      ghost var u, ram0, pos0 := loader.uart.data, loader.cram.ram, loader.uart.pos;
      ghost var goal := BankRuns(u, pos0, 0, ram0);
      flash.WrsrUnlock(true);
      flash.EraseLower256k();
      ErasedPrograms(was);
      ErasedOutside(was);
      loader.cram.Enable();
      var c := 0;
      status, wins := BankDone, [];
      PrefixedNothing(goal);
      while c < NUM_OF_BANK
        invariant 0 <= c == |wins| <= NUM_OF_BANK && Valid() && flash.Writable() && status == BankDone
        invariant goal == Prefixed(wins, BankRuns(u, loader.uart.pos, c, loader.cram.ram))
        invariant Programs(flash.Cells(), wins)
        invariant old(flash.log) <= flash.log && |flash.log| > from && flash.log[from] == Access(was, 0, 0x1_0000)
        invariant SameOutside(was, flash.Cells(), 0, PRIMARY_ERASE)
        invariant Confined(flash.log, from, was, 0, PRIMARY_ERASE)
      {
        ghost var mid, before := flash.Cells(), flash.log;
        ghost var ram, pos := loader.cram.ram, loader.uart.pos;
        status := DownloadBank(c, wins);
        ConfinedTwice(flash.log, from, before, was, mid, 0, PRIMARY_ERASE, 0, PRIMARY_ERASE);
        SameOutsideTwice(was, mid, flash.Cells(), 0, PRIMARY_ERASE);
        BankRunsNext(u, pos, c, ram, wins);
        if status != BankDone {
          return;
        }
        ghost var mem := Parse(Cleared(ram.View(c)), 0, u, pos).mem;
        wins := wins + [Code(c, mem)];
        c := c + 1;
      }
      BankRunsEnd(u, loader.uart.pos, loader.cram.ram, wins);
    }

    /** Download_Uart2Sflash, both prompts answered Y. */
    method DownloadUart2Sflash(autoBackup: bool) returns (result: Downloaded)
      requires Valid()
      modifies this, loader, loader.uart, loader.cram, flash
      ensures Valid()
      ensures match BankRuns(loader.uart.data, old(loader.uart.pos), 0, old(loader.cram.ram))
              case AllRead(wins, q) =>
                && result == Success && loader.uart.pos == q
                && |wins| == NUM_OF_BANK && Programs(flash.Cells(), wins)
                && (autoBackup ==> Backup(flash.Cells()) == Primary(flash.Cells()))
              case BadText(wins) => result == Failed && Programs(flash.Cells(), wins)
              case Hung(wins, o) => result == Hanging(o) && Programs(flash.Cells(), wins)
      ensures !(autoBackup && result == Success) ==> SameOutside(old(flash.Cells()), flash.Cells(), 0, PRIMARY_ERASE)
      ensures AlwaysSafe(flash.log, |old(flash.log)|) <==> ValidImage(Backup(old(flash.Cells())))
      ensures !result.Hanging? ==> !flash.Writable() && !loader.cram.flashMapped
      ensures old(flash.log) <= flash.log
    {
      hide ValidImage, Programs, Primary, Backup, Confined, SameOutside, AlwaysSafe, BankRuns;
      ghost var was, from := flash.Cells(), |flash.log|;
      var status;
      ghost var wins;
      status, wins := EraseAndProgram();
      SafeIffBackup(flash.log, from, was);
      if status.BankHangs? {
        return Hanging(status.why);
      }
      loader.cram.Disable();
      flash.WrsrUnlock(false);
      if autoBackup && status == BankDone {
        ghost var done, before := flash.Cells(), flash.log;
        ProgramsAllIsValid(done, wins);
        var ok := BackupCodeImage();
        SafeWithPrimary(flash.log, |before|, done);
        SafeThenSafe(flash.log, before, from);
        SamePrimary(done, flash.Cells());
        ProgramsSame(done, flash.Cells(), wins);
      }
      result := if status == BankDone then Success else Failed;
    }

    // ---------------------------------------------------------- booting

    /** A code fetch: from the flash while code writes are enabled, else from code RAM. */
    method FetchCode(addr: nat) returns (data: byte)
      requires loader.cram.Valid() && flash.Valid() && COMMONADDR_L <= addr <= 0xFFFF
      ensures data == if loader.cram.flashMapped then flash.Cells()[FlashAddress(loader.cram.bank, addr)]
                      else loader.cram.View()[addr - COMMONADDR_L]
    {
      if loader.cram.flashMapped {
        data := flash.ReadByte(FlashAddress(loader.cram.bank, addr));
      } else {
        data := loader.cram.Read(addr);
      }
    }

    /** Copies a stretch of the selected bank from flash to RAM; the CRC starts at address `crcFrom`. */
    method CopyToRam(start: nat, count: nat, crcFrom: nat) returns (crc: word)
      requires loader.cram.Valid() && flash.Valid() && loader.cram.flashMapped
      requires COMMONADDR_L <= start <= crcFrom <= start + count <= 0x1_0000 && start <= 0xFFFF
      requires start >= BANKADDR_L || loader.cram.bank == 0
      modifies loader.cram`ram
      ensures loader.cram.Valid()
      ensures var src := flash.Cells()[FlashAddress(loader.cram.bank, start)..][..count];
              && crc == Crc.Of(src[crcFrom - start..])
              && loader.cram.View() == Splice(old(loader.cram.View()), start - COMMONADDR_L, src)
      ensures loader.cram.ram == old(loader.cram.ram).WithView(loader.cram.bank, loader.cram.View())
    {
      hide Ram.View, Ram.WithView, Splice, Crc.Update, Crc.Of, FlashAddress, CrcSince;
      ghost var ram, b, view := loader.cram.ram, loader.cram.bank, loader.cram.View();
      ghost var src := flash.Cells()[FlashAddress(b, start)..][..count];
      var addr := start;
      crc := 0;
      ghost var from := crcFrom - start;
      CrcNothing(src, from);
      SpliceNothing(view, start - COMMONADDR_L);
      WithOwnView(ram, b);
      for datcnt := 0 to count
        invariant loader.cram.Valid() && addr == start + datcnt
        invariant loader.cram.View() == Splice(view, start - COMMONADDR_L, src[..datcnt])
        invariant loader.cram.ram == ram.WithView(b, loader.cram.View())
        invariant crc == CrcSince(src, from, datcnt)
      {
        ghost var was := loader.cram.View();
        var data := FetchCode(addr);
        StretchAt(flash.Cells(), b, start, count, datcnt);
        loader.cram.Write(addr, data);
        WithViewTwice(ram, b, was, loader.cram.View());
        CopyStep(view, start - COMMONADDR_L, src, datcnt);
        CrcNext(src, from, datcnt);
        if addr >= crcFrom {
          crc := Crc.Update(crc, data);
        }
        addr := addr + 1;
      }
      assert src[..count] == src;
    }

    /** Copies one bank and compares its CRC with the table entry, already in RAM. */
    method LoadBank(bank: nat, ghost image: seq<byte>) returns (good: bool)
      requires Valid() && bank < NUM_OF_BANK && loader.cram.flashMapped && image == Primary(flash.Cells())
      requires bank > 0 ==> BanksLoaded(loader.cram.ram, image, bank)
      modifies loader.cram
      ensures Valid() && loader.cram.flashMapped
      ensures good <==> ValidBank(image, bank)
      ensures BanksLoaded(loader.cram.ram, image, bank + 1)
    {
      hide Crc.Of, Lo8, Hi8, BanksLoaded, Window;
      var crc := CopyBank(bank, image);
      TableLoaded(loader.cram.ram, image, bank);
      var low := loader.cram.Read(COMMONADDR_L + bank * 2);
      var high := loader.cram.Read(COMMONADDR_L + bank * 2 + 1);
      good := Lo8(crc) == low && Hi8(crc) == high;
    }

    method CopyBank(bank: nat, ghost image: seq<byte>) returns (crc: word)
      requires Valid() && bank < NUM_OF_BANK && loader.cram.flashMapped && image == Primary(flash.Cells())
      requires bank > 0 ==> BanksLoaded(loader.cram.ram, image, bank)
      modifies loader.cram
      ensures Valid() && loader.cram.flashMapped && loader.cram.bank == bank
      ensures BanksLoaded(loader.cram.ram, image, bank + 1)
      ensures crc == Crc.Of(Window(image, bank))
    {
      hide Crc.Of, Splice, BanksLoaded, Window, Ram.WithView, Ram.View;
      ghost var ram := loader.cram.ram;
      loader.cram.Select(bank);
      if bank == 0 {
        crc := CopyToRam(COMMONADDR_L, COM_BANK0_LEN, CRAM_START);
        Bank0Loaded(ram, image, loader.cram.ram, flash.Cells());
      } else {
        crc := CopyToRam(BANKADDR_L, CBANK_LEN, BANKADDR_L);
        BankLoaded(ram, image, bank, loader.cram.ram, flash.Cells());
      }
    }

    /** load_sflash2cram: runs the firmware just when all eight CRCs match, and otherwise restores and resets. */
    method LoadSflash2Cram() returns (running: bool)
      requires Valid()
      modifies this`sflashAddr, this`addr32, loader.cram, flash
      ensures Valid()
      ensures running <==> ValidImage(Primary(old(flash.Cells())))
      ensures running ==>
        !loader.cram.flashMapped && BanksLoaded(loader.cram.ram, Primary(old(flash.Cells())), NUM_OF_BANK)
      ensures running || !ValidImage(Backup(old(flash.Cells()))) ==>
        flash.Cells() == old(flash.Cells()) && flash.log == old(flash.log)
      ensures !running && ValidImage(Backup(old(flash.Cells()))) ==>
        Primary(flash.Cells()) == Backup(old(flash.Cells()))
      ensures SameOutside(old(flash.Cells()), flash.Cells(), 0, PRIMARY_ERASE)
      ensures old(flash.log) <= flash.log
      ensures Confined(flash.log, |old(flash.log)|, old(flash.Cells()), 0, PRIMARY_ERASE)
    {
      hide ValidBank, BanksLoaded, Confined;
      ghost var image := Primary(flash.Cells());
      ConfinedNothing(flash.log, flash.Cells(), 0, PRIMARY_ERASE);
      loader.cram.Enable();
      var bank, good := 0, true;
      while bank < NUM_OF_BANK && good
        invariant 0 <= bank <= NUM_OF_BANK && Valid() && loader.cram.flashMapped
        invariant flash.chip == old(flash.chip) && flash.log == old(flash.log)
        invariant bank > 0 && good ==> BanksLoaded(loader.cram.ram, image, bank)
        invariant good ==> forall b | 0 <= b < bank :: ValidBank(image, b)
        invariant !good ==> !ValidImage(image)
        decreases NUM_OF_BANK - bank, good
      {
        good := LoadBank(bank, image);
        if good {
          bank := bank + 1;
        }
      }
      loader.cram.Disable();
      running := good;
      if !good {
        var restored := RestoreCodeImage();
      }
    }

    /** Power-up and, if the loader resets the chip, the boot after that. */
    method PowerUp() returns (running: bool)
      requires Valid()
      modifies this`sflashAddr, this`addr32, loader.cram, flash
      ensures Valid()
      ensures running <==> Bootable(old(flash.Cells()))
      ensures running ==> Primary(flash.Cells()) == BootedImage(old(flash.Cells()))
      ensures running ==> BanksLoaded(loader.cram.ram, BootedImage(old(flash.Cells())), NUM_OF_BANK)
      ensures Backup(flash.Cells()) == Backup(old(flash.Cells()))
      ensures AlwaysSafe(flash.log, |old(flash.log)|)
      ensures OnlyBootCuts(flash.log, |old(flash.log)|, old(flash.Cells()))
    {
      hide ValidImage, BanksLoaded, Confined, SafeAccess, CutWhileBooting;
      ghost var was, from := flash.Cells(), |flash.log|;
      running := LoadSflash2Cram();
      SameBackup(was, flash.Cells());
      if !running {
        ghost var mid, before := flash.Cells(), flash.log;
        loader.cram.Select(0);
        if ValidImage(Backup(was)) {
          SafeWithBackup(before, from, was);
          CutsWhileBooting(before, from, was);
        }
        running := LoadSflash2Cram();
        SameBackup(mid, flash.Cells());
      }
    }
  }

  lemma NothingUnsafe(log: seq<Access>)
    ensures AlwaysSafe(log, |log|)
  {}

  lemma BackupAt(cells: seq<byte>, bank: nat, k: nat)
    requires |cells| == CHIP_SIZE && bank < NUM_OF_BANK && k < BankLen(bank)
    ensures Window(Backup(cells), bank)[k] == cells[BACKUP_START + BankLo(bank) + k]
  {
    var lo := BankLo(bank);
    assert lo + BankLen(bank) <= IMAGE_LEN;
    SliceAt(Backup(cells), lo, lo + BankLen(bank), k);
    SliceAt(cells, BACKUP_START, BACKUP_START + IMAGE_LEN, lo + k);
  }

  lemma SliceAt(s: seq<byte>, lo: nat, hi: nat, k: nat)
    requires lo + k < hi <= |s|
    ensures s[lo..hi][k] == s[lo + k]
  {}

  /** Where the flash appears in the code space. */
  function FlashAddress(bank: nat, addr: nat): (a: nat)
    requires bank < NUM_OF_BANK && COMMONADDR_L <= addr <= 0xFFFF
    ensures a < IMAGE_LEN
  {
    if addr < BANKADDR_L || bank == 0 then addr - COMMONADDR_L
    else 0xE000 + (bank - 1) * 0x6000 + (addr - BANKADDR_L)
  }

  /** RAM holds the first n banks of the image, the common area and the CRC table included. */
  ghost predicate BanksLoaded(ram: Ram, image: seq<byte>, n: nat) {
    && ram.Valid() && |image| == IMAGE_LEN && 0 < n <= NUM_OF_BANK
    && ram.common == image[..COMMON_LEN]
    && forall b | 0 <= b < n :: Code(b, ram.View(b)) == Window(image, b)
  }

  /** The image that ends up running: the primary if valid, else the backup. */
  ghost function BootedImage(cells: seq<byte>): seq<byte>
    requires |cells| == CHIP_SIZE
  {
    if ValidImage(Primary(cells)) then Primary(cells) else Backup(cells)
  }

  // ------------------------------------------------------------ any number of power cuts

  /** What a power cut may leave of the cells while the loader boots from them and restores the backup. */
  ghost predicate CutWhileBooting(was: seq<byte>, cells: seq<byte>) {
    && |was| == CHIP_SIZE && !ValidImage(Primary(was)) && ValidImage(Backup(was))
    && SameOutside(was, cells, 0, PRIMARY_ERASE)
  }

  ghost predicate OnlyBootCuts(log: seq<Access>, from: nat, was: seq<byte>) {
    forall k, cells | from <= k < |log| && CutState(log[k], cells) :: CutWhileBooting(was, cells)
  }

  lemma CutsWhileBooting(log: seq<Access>, from: nat, was: seq<byte>)
    requires |was| == CHIP_SIZE && !ValidImage(Primary(was)) && ValidImage(Backup(was))
    requires Confined(log, from, was, 0, PRIMARY_ERASE)
    ensures OnlyBootCuts(log, from, was)
  {
    hide ValidImage;
  }

  /** Flash contents, each left by a power cut while booting from the one before. */
  ghost predicate CutChain(states: seq<seq<byte>>) {
    && states != [] && |states[0]| == CHIP_SIZE
    && forall i | 0 <= i < |states| - 1 :: CutAt(states, i)
  }

  ghost predicate CutAt(states: seq<seq<byte>>, i: nat)
    requires i + 1 < |states|
  {
    CutWhileBooting(states[i], states[i + 1])
  }

  /** However often the power fails while booting, the backup stays, and a valid image runs in the end. */
  lemma {:induction false} CutsLeaveBootable(states: seq<seq<byte>>)
    requires CutChain(states) && Bootable(states[0])
    ensures var last := states[|states| - 1];
      |last| == CHIP_SIZE && Bootable(last) && ValidImage(BootedImage(last)) && Backup(last) == Backup(states[0])
    decreases |states|
  {
    hide ValidImage, Primary, Backup;
    if |states| > 1 {
      var n := |states| - 1;
      forall i | 0 <= i < n - 1 ensures CutAt(states[..n], i) { assert CutAt(states, i); }
      assert CutAt(states, n - 1);
      SameBackup(states[n - 1], states[n]);
      CutsLeaveBootable(states[..n]);
    }
  }

  /**
    A cut during any command that was safe, and then any number of cuts while booting, leave
    flash from which PowerUp runs a valid image.
   */
  lemma CutThenBoots(log: seq<Access>, from: nat, k: nat, states: seq<seq<byte>>)
    requires AlwaysSafe(log, from) && from <= k < |log|
    requires CutChain(states) && CutState(log[k], states[0])
    ensures var last := states[|states| - 1]; |last| == CHIP_SIZE && Bootable(last) && ValidImage(BootedImage(last))
  {
    hide ValidImage, Bootable, BootedImage;
    assert SafeAccess(log[k]) && CutState(log[k], states[0]);
    CutsLeaveBootable(states);
  }

  /** A stretch of code space is a stretch of flash. */
  lemma StretchAt(cells: seq<byte>, b: nat, start: nat, count: nat, i: nat)
    requires |cells| == CHIP_SIZE && b < NUM_OF_BANK && COMMONADDR_L <= start <= 0xFFFF && start + count <= 0x1_0000
    requires i < count && (start >= BANKADDR_L || b == 0)
    ensures FlashAddress(b, start) + count <= CHIP_SIZE
    ensures cells[FlashAddress(b, start)..][..count][i] == cells[FlashAddress(b, start + i)]
  {}

  lemma CopyStep(view: seq<byte>, at: nat, src: seq<byte>, k: nat)
    requires k < |src| && at + |src| <= |view|
    ensures Splice(view, at, src[..k])[at + k := src[k]] == Splice(view, at, src[..k + 1])
  {
    hide Splice;
    SpliceNext(view, at, src[..k], src[k]);
    PrefixNext(src, k);
  }

  /** The CRC of src[from..k], nothing counting before position from. */
  function CrcSince(src: seq<byte>, from: nat, k: nat): word
    requires k <= |src|
  {
    if k <= from then 0 else Crc.Of(src[from..k])
  }

  lemma CrcNext(src: seq<byte>, from: nat, k: nat)
    requires k < |src|
    ensures CrcSince(src, from, k + 1) ==
      if k < from then CrcSince(src, from, k) else Crc.Update(CrcSince(src, from, k), src[k])
  {
    hide Crc.Update;
    if from <= k {
      var s := src[from..k + 1];
      assert s[..|s| - 1] == src[from..k] && s[|s| - 1] == src[k];
      assert Crc.Of(s) == Crc.Update(Crc.Of(src[from..k]), src[k]);
      if k == from {
        assert src[from..k] == [];
      }
    }
  }

  lemma CrcNothing(src: seq<byte>, from: nat)
    requires from <= |src|
    ensures CrcSince(src, from, 0) == 0
    ensures CrcSince(src, from, |src|) == Crc.Of(src[from..])
  {
    assert src[from..|src|] == src[from..];
  }

  lemma Bank0Loaded(ram: Ram, image: seq<byte>, after: Ram, cells: seq<byte>)
    requires ram.Valid() && after.Valid() && |cells| == CHIP_SIZE && image == Primary(cells)
    requires after.View(0) == Splice(ram.View(0), 0, cells[0..][..COM_BANK0_LEN])
    ensures BanksLoaded(after, image, 1)
    ensures cells[0..][..COM_BANK0_LEN][0x100..] == Window(image, 0)
  {
    assert after.View(0) == cells[0..][..COM_BANK0_LEN] == image[..COM_BANK0_LEN];
    assert after.common == after.View(0)[..COMMON_LEN];
  }

  /** The CRC table in the RAM every bank sees. */
  lemma TableLoaded(ram: Ram, image: seq<byte>, b: nat)
    requires BanksLoaded(ram, image, b + 1)
    ensures ram.Valid() && |image| == IMAGE_LEN && b < NUM_OF_BANK
    ensures ram.View(b)[2 * b] == image[2 * b] && ram.View(b)[2 * b + 1] == image[2 * b + 1]
  {}

  lemma BankLoaded(ram: Ram, image: seq<byte>, b: nat, after: Ram, cells: seq<byte>)
    requires |cells| == CHIP_SIZE && image == Primary(cells) && 0 < b < NUM_OF_BANK && BanksLoaded(ram, image, b)
    requires after.Valid() && after == ram.WithView(b, after.View(b))
    requires after.View(b) == Splice(ram.View(b), COMMON_LEN, cells[FlashAddress(b, BANKADDR_L)..][..CBANK_LEN])
    ensures BanksLoaded(after, image, b + 1)
    ensures cells[FlashAddress(b, BANKADDR_L)..][..CBANK_LEN][0..] == Window(image, b)
  {
    var src := cells[FlashAddress(b, BANKADDR_L)..][..CBANK_LEN];
    assert src == Window(image, b);
    assert after.common == after.View(b)[..COMMON_LEN] == ram.View(b)[..COMMON_LEN] == ram.common;
    forall k | 0 <= k < b + 1 ensures Code(k, after.View(k)) == Window(image, k) {
      if k < b {
        assert after.windows[k] == ram.windows[k];
        assert after.View(k) == ram.View(k);
        assert Code(k, ram.View(k)) == Window(image, k);
      } else {
        assert Code(b, after.View(b)) == src;
      }
    }
  }

  lemma SameBackup(a: seq<byte>, b: seq<byte>)
    requires |a| == CHIP_SIZE && SameOutside(a, b, 0, PRIMARY_ERASE)
    ensures Backup(b) == Backup(a)
  {
    SameSlice(a, b, 0, PRIMARY_ERASE, BACKUP_START, BACKUP_START + IMAGE_LEN);
  }

  lemma ErasedOutside(cells: seq<byte>)
    requires |cells| == CHIP_SIZE
    ensures SameOutside(cells, Erased(cells, 0, PRIMARY_ERASE), 0, PRIMARY_ERASE)
  {}

  lemma SameOutsideTwice(a: seq<byte>, b: seq<byte>, c: seq<byte>, lo: nat, hi: nat)
    requires SameOutside(a, b, lo, hi) && SameOutside(b, c, lo, hi)
    ensures SameOutside(a, c, lo, hi)
  {}

  /** Accesses to the primary area, the first of them to byte 0, are all safe just when the backup is valid. */
  lemma SafeIffBackup(log: seq<Access>, from: nat, base: seq<byte>)
    requires |base| == CHIP_SIZE && from < |log| && log[from] == Access(base, 0, 0x1_0000)
    requires Confined(log, from, base, 0, PRIMARY_ERASE)
    ensures AlwaysSafe(log, from) <==> ValidImage(Backup(base))
  {
    hide ValidImage, Confined, SafeAccess;
    if ValidImage(Backup(base)) {
      SafeWithBackup(log, from, base);
    } else {
      UnsafeWithoutBackup(log[from]);
    }
  }

  lemma SafeThenSafe(log: seq<Access>, before: seq<Access>, from: nat)
    requires before <= log && from <= |before| && AlwaysSafe(log, |before|)
    ensures AlwaysSafe(log, from) <==> AlwaysSafe(before, from)
  {
    hide SafeAccess;
    if AlwaysSafe(log, from) {
      forall k | from <= k < |before| ensures SafeAccess(before[k]) { assert log[k] == before[k]; }
    }
    if AlwaysSafe(before, from) {
      forall k | from <= k < |log| ensures SafeAccess(log[k]) { if k < |before| { assert log[k] == before[k]; } }
    }
  }

  lemma SamePrimary(a: seq<byte>, b: seq<byte>)
    requires |a| == CHIP_SIZE && SameOutside(a, b, PRIMARY_ERASE, BACKUP_ERASE)
    ensures Primary(b) == Primary(a)
  {
    SameSlice(a, b, PRIMARY_ERASE, BACKUP_ERASE, 0, IMAGE_LEN);
  }

  lemma ProgramsSame(a: seq<byte>, b: seq<byte>, wins: seq<seq<byte>>)
    requires Programs(a, wins) && SameOutside(a, b, PRIMARY_ERASE, BACKUP_ERASE)
    ensures Programs(b, wins)
  {
    hide Crc.Of, Lo8, Hi8;
    forall j | 0 <= j < |wins| ensures ProgramsBank(b, j, wins[j]) {
      assert ProgramsBank(a, j, wins[j]);
      SameSlice(a, b, PRIMARY_ERASE, BACKUP_ERASE, BankLo(j), BankLo(j) + BankLen(j));
    }
  }

  /** A parsed text leaves the RAM behind the programmed bytes blank. */
  lemma TailIsBlank(view: seq<byte>, u: seq<byte>, pos: nat, c: nat)
    requires |view| == COM_BANK0_LEN && pos <= |u| && c < NUM_OF_BANK && BlankAt(view, 0x100, 0xDF00)
    ensures match Parse(view, 0, u, pos)
            case Finished(_, mem, top, _) =>
              var code, k := Code(c, mem), ProgrammedBytes(c, top);
              k <= |code| && forall i | k <= i < |code| :: code[i] == BLANK
            case _ => true
  {
    hide Run;
    RunKeepsBlankAbove(Initial(view, 0), u, pos);
    match Parse(view, 0, u, pos) {
      case Finished(_, mem, top, _) =>
        forall i | ProgrammedBytes(c, top) <= i < |Code(c, mem)| ensures Code(c, mem)[i] == BLANK {
          CodeAt(c, mem, i);
        }
      case _ =>
    }
  }

  lemma ClearedIsBlank(mem: seq<byte>)
    requires |mem| == COM_BANK0_LEN
    ensures BlankAt(Cleared(mem), 0x100, 0xDF00)
  {}

  lemma BankIsBlank(cells: seq<byte>, wins: seq<seq<byte>>)
    requires Programs(cells, wins) && |wins| < NUM_OF_BANK
    ensures BlankAt(cells, BankLo(|wins|), BankLen(|wins|))
  {}

  lemma BankProgrammed(was: seq<byte>, wins: seq<seq<byte>>, code: seq<byte>, k: nat, mid: seq<byte>)
    requires Programs(was, wins) && |wins| < NUM_OF_BANK && |code| == BankLen(|wins|) && k <= |code|
    requires forall i | k <= i < |code| :: code[i] == BLANK
    requires mid == Splice(was, BankLo(|wins|), code[..k])
    ensures BlankAt(mid, 2 * |wins|, 2) && SameOutside(was, mid, 0, PRIMARY_ERASE)
    ensures var n, crc := |wins|, Crc.Of(code);
            Programs(mid[2 * n := Lo8(crc)][2 * n + 1 := Hi8(crc)], wins + [code])
  {
    hide Crc.Of, Lo8, Hi8;
    var n, crc := |wins|, Crc.Of(code);
    BankIsBlank(was, wins);
    BlankTailNeedsNoProgramming(was, BankLo(n), code, k);
    ProgramsNext(was, wins, code, mid[2 * n := Lo8(crc)][2 * n + 1 := Hi8(crc)]);
  }

  /** Programming data[k] behind data[..k]: what the cell held, what the cells become, where the access was. */
  lemma ProgrammingStep(base: seq<byte>, at: nat, data: seq<byte>, k: nat,
                        log: seq<Access>, from: nat, lo: nat, hi: nat)
    requires at + |data| <= |base| && k < |data| && lo <= at && at + |data| <= hi
    requires Confined(log, from, base, lo, hi)
    ensures var cells := Splice(base, at, data[..k]);
            && cells[at + k] == base[at + k]
            && cells[at + k := data[k]] == Splice(base, at, data[..k + 1])
            && Confined(log + [Access(cells, at + k, at + k + 1)], from, base, lo, hi)
  {
    hide Splice, Confined, SameOutside;
    var cells := Splice(base, at, data[..k]);
    SpliceElsewhere(base, at, data[..k], at + k);
    SpliceNext(base, at, data[..k], data[k]);
    PrefixNext(data, k);
    SpliceOutside(base, at, data[..k], lo, hi);
    ConfinedNext(log, from, base, lo, hi, Access(cells, at + k, at + k + 1));
  }

  lemma CodeAt(c: nat, view: seq<byte>, k: nat)
    requires c < NUM_OF_BANK && |view| == COM_BANK0_LEN && k < BankLen(c)
    ensures Code(c, view)[k] == view[CodeStart(c) + k - COMMONADDR_L]
  {}

  predicate BlankAt(cells: seq<byte>, at: nat, len: nat) {
    at + len <= |cells| && forall i | at <= i < at + len :: cells[i] == BLANK
  }

  /** mem with [0x100, to) blanked. */
  function BlankedTo(mem: seq<byte>, to: nat): (m: seq<byte>)
    requires |mem| == COM_BANK0_LEN && 0x100 <= to <= COM_BANK0_LEN
    ensures |m| == COM_BANK0_LEN
  {
    mem[..0x100] + seq(to - 0x100, _ => BLANK) + mem[to..]
  }

  lemma BlankedNext(mem: seq<byte>, to: nat)
    requires |mem| == COM_BANK0_LEN && 0x100 <= to < COM_BANK0_LEN
    ensures BlankedTo(mem, to)[to := BLANK] == BlankedTo(mem, to + 1)
    ensures BlankedTo(mem, 0x100) == mem && BlankedTo(mem, COM_BANK0_LEN) == Cleared(mem)
  {}

  lemma BlankTakesAll(data: byte)
    ensures BLANK & data == data
  {}

  /** Two confined stretches of the log, the second inside the first's range, are one. */
  lemma ConfinedTwice(log: seq<Access>, from: nat, before: seq<Access>, base: seq<byte>, mid: seq<byte>,
                      lo: nat, hi: nat, lo': nat, hi': nat)
    requires before <= log && from <= |before| && lo <= lo' <= hi' <= hi
    requires Confined(before, from, base, lo, hi) && SameOutside(base, mid, lo, hi)
    requires Confined(log, |before|, mid, lo', hi')
    ensures Confined(log, from, base, lo, hi)
  {
    forall k | from <= k < |log|
      ensures lo <= log[k].lo <= log[k].hi <= hi && SameOutside(base, log[k].before, lo, hi)
    {
      if k < |before| {
        assert before[k] == log[k];
      }
    }
  }
}
