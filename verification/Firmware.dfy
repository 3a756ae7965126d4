/**
  From HEX files to running firmware: eight texts downloaded over the serial port, and
  what the processor then executes.
 */
module Firmware {
  import opened MachineWords
  import opened Buffers
  import opened CodeMemory
  import opened SpiFlashDrv
  import opened HexFile
  import opened HexText
  import opened FlashImage
  import opened Bootloader

  /** Blank memory, as a bank's records find it. */
  function BlankMemory(): (mem: seq<byte>)
    ensures |mem| == COM_BANK0_LEN
  {
    seq(COM_BANK0_LEN, _ => BLANK)
  }

  /** What the records of bank b denote: their bytes in order, 0xFF where none was written. */
  function FirmwareCode(b: nat, rs: seq<Record>): (code: seq<byte>)
    requires b < NUM_OF_BANK && AllLoadable(rs)
    ensures |code| == BankLen(b)
  {
    Code(b, LoadedAll(BlankMemory(), rs))
  }

  /** The stream holds the texts of files[c..], file k between ends[k] and ends[k + 1]. */
  ghost predicate TextsAt(u: seq<byte>, files: seq<seq<Record>>, ends: seq<nat>) {
    && |files| == NUM_OF_BANK && |ends| == NUM_OF_BANK + 1
    && (forall k | 0 <= k < NUM_OF_BANK :: AllLoadable(files[k]))
    && (forall k | 0 <= k < NUM_OF_BANK :: TextAt(u, ends[k], files[k], ends[k + 1]))
  }

  ghost predicate AllGood(files: seq<seq<Record>>)
    requires forall k | 0 <= k < |files| :: AllLoadable(files[k])
  {
    forall k | 0 <= k < |files| :: GoodChecksums(files[k])
  }

  function FirmwareFrom(files: seq<seq<Record>>, c: nat, n: nat): (wins: seq<seq<byte>>)
    requires c <= n <= NUM_OF_BANK == |files|
    requires forall k | 0 <= k < NUM_OF_BANK :: AllLoadable(files[k])
    ensures |wins| == n - c
    decreases n - c
  {
    if c == n then [] else [FirmwareCode(c, files[c])] + FirmwareFrom(files, c + 1, n)
  }

  lemma {:induction false} FirmwareFromAt(files: seq<seq<Record>>, c: nat, n: nat, k: nat)
    requires c <= k < n <= NUM_OF_BANK == |files|
    requires forall j | 0 <= j < NUM_OF_BANK :: AllLoadable(files[j])
    ensures FirmwareFrom(files, c, n)[k - c] == FirmwareCode(k, files[k])
    decreases n - c
  {
    hide FirmwareCode;
    if c < k {
      FirmwareFromAt(files, c + 1, n, k);
    }
  }

  // ------------------------------------------------------------ loading from blanked memory

  ghost predicate SameFromCode(m1: seq<byte>, m2: seq<byte>) {
    |m1| == |m2| == COM_BANK0_LEN && forall i | 0x100 <= i < COM_BANK0_LEN :: m1[i] == m2[i]
  }

  lemma {:induction false} LoadedAllAgree(m1: seq<byte>, m2: seq<byte>, rs: seq<Record>)
    requires SameFromCode(m1, m2) && AllLoadable(rs)
    ensures SameFromCode(LoadedAll(m1, rs), LoadedAll(m2, rs))
    decreases |rs|
  {
    if rs != [] {
      LoadedAgree(m1, m2, rs[0]);
      hide Loaded, SameFromCode;
      LoadedAllAgree(Loaded(m1, rs[0]), Loaded(m2, rs[0]), rs[1..]);
    }
  }

  lemma LoadedAgree(m1: seq<byte>, m2: seq<byte>, r: Record)
    requires SameFromCode(m1, m2) && Loadable(r)
    ensures SameFromCode(Loaded(m1, r), Loaded(m2, r))
  {
    hide Address;
    if r.Data? {
      var at := Address(r.high, r.low) - COMMONADDR_L;
      forall i | 0x100 <= i < COM_BANK0_LEN ensures Loaded(m1, r)[i] == Loaded(m2, r)[i] {
        if at <= i < at + |r.data| {
          assert Splice(m1, at, r.data)[at..at + |r.data|][i - at] == r.data[i - at];
          assert Splice(m2, at, r.data)[at..at + |r.data|][i - at] == r.data[i - at];
        } else {
          SpliceElsewhere(m1, at, r.data, i);
          SpliceElsewhere(m2, at, r.data, i);
        }
      }
    }
  }

  /** Only bank 0's first 0x100 bytes survive ClearEram, and they are not part of any code window. */
  lemma CodeFromCleared(c: nat, mem: seq<byte>, rs: seq<Record>)
    requires c < NUM_OF_BANK && |mem| == COM_BANK0_LEN && AllLoadable(rs)
    ensures Code(c, LoadedAll(Cleared(mem), rs)) == FirmwareCode(c, rs)
  {
    hide LoadedAll;
    assert SameFromCode(Cleared(mem), BlankMemory());
    LoadedAllAgree(Cleared(mem), BlankMemory(), rs);
    SameCode(c, LoadedAll(Cleared(mem), rs), LoadedAll(BlankMemory(), rs));
  }

  lemma SameCode(c: nat, m1: seq<byte>, m2: seq<byte>)
    requires c < NUM_OF_BANK && SameFromCode(m1, m2)
    ensures Code(c, m1) == Code(c, m2)
  {}

  // ------------------------------------------------------------ reading the eight texts

  lemma ParseGoodText(u: seq<byte>, pos: nat, q: nat, rs: seq<Record>, mem: seq<byte>)
    requires |mem| == COM_BANK0_LEN && AllLoadable(rs) && TextAt(u, pos, rs, q)
    ensures var o := Parse(mem, 0, u, pos);
            o.Finished? && o.mem == LoadedAll(mem, rs) && o.pos == q
            && o.errs[ERR_CHK_SUME] == BadCount(rs) % 0x1_0000
  {
    hide Parse, TextAt, LoadedAll, CountedAll, BadCount, AllLoadable;
    ParseOfText(mem, 0, u, pos, rs, q);
    CountersOf(CLEAR, rs);
  }

  /** Good texts are read to the end and give the firmware's code, whatever was in RAM. */
  lemma {:induction false} GoodTextsAreRead(u: seq<byte>, files: seq<seq<Record>>, ends: seq<nat>, c: nat, ram: Ram)
    requires TextsAt(u, files, ends) && AllGood(files) && c <= NUM_OF_BANK && ram.Valid() && ends[c] <= |u|
    ensures BankRuns(u, ends[c], c, ram) == AllRead(FirmwareFrom(files, c, NUM_OF_BANK), ends[NUM_OF_BANK])
    decreases NUM_OF_BANK - c
  {
    hide Parse, TextAt, GoodChecksums, AllLoadable, FirmwareCode, Code, Cleared, BadCount;
    if c < NUM_OF_BANK {
      var mem := Cleared(ram.View(c));
      ParseGoodText(u, ends[c], ends[c + 1], files[c], mem);
      NoBadChecksum(files[c]);
      CodeFromCleared(c, ram.View(c), files[c]);
      GoodTextsAreRead(u, files, ends, c + 1, ram.WithView(c, LoadedAll(mem, files[c])));
    }
  }

  /**
    The first text with a nonzero checksum count stops the download: the banks before it are in,
    it and the rest are not.
   */
  lemma {:induction false} BadTextStops(
      u: seq<byte>, files: seq<seq<Record>>, ends: seq<nat>, c: nat, bad: nat, ram: Ram)
    requires TextsAt(u, files, ends) && c <= bad < NUM_OF_BANK && ram.Valid() && ends[c] <= |u|
    requires forall k | c <= k < bad :: GoodChecksums(files[k])
    requires BadCount(files[bad]) % 0x1_0000 != 0
    ensures BankRuns(u, ends[c], c, ram) == BadText(FirmwareFrom(files, c, bad))
    decreases NUM_OF_BANK - c
  {
    hide Parse, TextAt, GoodChecksums, AllLoadable, FirmwareCode, Code, Cleared, BadCount;
    var mem := Cleared(ram.View(c));
    ParseGoodText(u, ends[c], ends[c + 1], files[c], mem);
    if c < bad {
      NoBadChecksum(files[c]);
      CodeFromCleared(c, ram.View(c), files[c]);
      BadTextStops(u, files, ends, c + 1, bad, ram.WithView(c, LoadedAll(mem, files[c])));
    }
  }

  // ------------------------------------------------------------ end to end

  /**
    Downloading eight good texts and booting runs exactly the firmware they denote: every
    bank's code region of code RAM holds its records' bytes and 0xFF elsewhere.
   */
  method DownloadAndBoot(b: BootLoader, autoBackup: bool, ghost files: seq<seq<Record>>, ghost ends: seq<nat>)
    returns (running: bool)
    requires b.Valid() && TextsAt(b.loader.uart.data, files, ends) && AllGood(files)
    requires b.loader.uart.pos == ends[0]
    modifies b, b.loader, b.loader.uart, b.loader.cram, b.flash
    ensures b.Valid() && running && b.loader.uart.pos == ends[NUM_OF_BANK]
    ensures forall k | 0 <= k < NUM_OF_BANK ::
      Code(k, b.loader.cram.ram.View(k)) == FirmwareCode(k, files[k])
    ensures autoBackup ==> ValidImage(Backup(b.flash.Cells()))
  {
    hide TextsAt, AllGood, ValidImage, Programs, Primary, Backup, Window, FirmwareCode, FirmwareFrom, BankRuns;
    hide AlwaysSafe, SameOutside, Confined;
    ghost var u, ram := b.loader.uart.data, b.loader.cram.ram;
    EndsInStream(u, files, ends);
    GoodTextsAreRead(u, files, ends, 0, ram);
    ghost var wins := FirmwareFrom(files, 0, NUM_OF_BANK);
    var result := b.DownloadUart2Sflash(autoBackup);
    ProgramsAllIsValid(b.flash.Cells(), wins);
    ghost var image := Primary(b.flash.Cells());
    ghost var cells := b.flash.Cells();
    running := b.LoadSflash2Cram();
    assert b.flash.Cells() == cells;
    forall k | 0 <= k < NUM_OF_BANK
      ensures Code(k, b.loader.cram.ram.View(k)) == FirmwareCode(k, files[k])
    {
      FirmwareFromAt(files, 0, NUM_OF_BANK, k);
      assert Code(k, b.loader.cram.ram.View(k)) == Window(image, k);
    }
  }

  lemma EndsInStream(u: seq<byte>, files: seq<seq<Record>>, ends: seq<nat>)
    requires TextsAt(u, files, ends)
    ensures ends[0] <= |u| && forall k | 0 <= k < NUM_OF_BANK :: AllLoadable(files[k])
    ensures |files| == NUM_OF_BANK && |ends| == NUM_OF_BANK + 1
  {
    assert TextAt(u, ends[0], files[0], ends[1]);
  }

  /**
    One altered byte in one record of one text: the download fails, the banks before that
    one are programmed and no byte of it or of a later one, and the backup stays as it was.
   */
  method DownloadAltered(b: BootLoader, autoBackup: bool, ghost files: seq<seq<Record>>, ghost ends: seq<nat>,
                         ghost bad: nat, ghost i: nat, ghost r: Record)
    returns (result: Downloaded)
    requires b.Valid() && bad < NUM_OF_BANK == |files| && b.loader.uart.pos <= |b.loader.uart.data|
    requires forall k | 0 <= k < NUM_OF_BANK :: AllLoadable(files[k])
    requires AllGood(files) && i < |files[bad]| && Loadable(r) && OneByteAltered(files[bad][i], r)
    requires TextsAt(b.loader.uart.data, files[bad := files[bad][i := r]], ends) && b.loader.uart.pos == ends[0]
    modifies b, b.loader, b.loader.uart, b.loader.cram, b.flash
    ensures b.Valid() && result == Failed
    ensures Programs(b.flash.Cells(), FirmwareFrom(files, 0, bad))
    ensures SameOutside(old(b.flash.Cells()), b.flash.Cells(), 0, PRIMARY_ERASE)
  {
    hide TextsAt, ValidImage, Programs, Primary, Backup, FirmwareCode, AlwaysSafe, SameOutside, BankRuns;
    hide AllGood, OneByteAltered, AllLoadable, Confined, FirmwareFrom;
    AlteredStops(b.loader.uart.data, files, ends, bad, i, r, b.loader.cram.ram);
    result := b.DownloadUart2Sflash(autoBackup);
  }

  /** The texts with one altered byte are read up to the one it is in. */
  lemma AlteredStops(
      u: seq<byte>, files: seq<seq<Record>>, ends: seq<nat>, bad: nat, i: nat, r: Record, ram: Ram)
    requires bad < NUM_OF_BANK == |files| && ram.Valid() && forall k | 0 <= k < NUM_OF_BANK :: AllLoadable(files[k])
    requires AllGood(files) && i < |files[bad]| && Loadable(r) && OneByteAltered(files[bad][i], r)
    requires TextsAt(u, files[bad := files[bad][i := r]], ends)
    ensures |ends| > 0 && ends[0] <= |u| && BankRuns(u, ends[0], 0, ram) == BadText(FirmwareFrom(files, 0, bad))
  {
    hide TextsAt, FirmwareFrom, BankRuns, GoodChecksums, OneByteAltered, AllLoadable, BadCount;
    var files' := files[bad := files[bad][i := r]];
    AlteredIsBad(files[bad], i, r);
    EndsInStream(u, files', ends);
    BadTextStops(u, files', ends, 0, bad, ram);
    SameFirmware(files, files', 0, bad);
  }

  lemma AlteredIsBad(rs: seq<Record>, i: nat, r: Record)
    requires AllLoadable(rs) && GoodChecksums(rs) && i < |rs| && Loadable(r) && OneByteAltered(rs[i], r)
    ensures AllLoadable(rs[i := r]) && BadCount(rs[i := r]) % 0x1_0000 != 0
  {
    hide GoodChecksums, OneByteAltered, AllLoadable, BadCount, CountedAll, Loadable;
    AlteredRecordIsCounted(rs, i, r);
    CountersOf(CLEAR, rs[i := r]);
  }

  lemma {:induction false} SameFirmware(files: seq<seq<Record>>, files': seq<seq<Record>>, c: nat, n: nat)
    requires c <= n <= NUM_OF_BANK == |files| == |files'|
    requires forall k | 0 <= k < NUM_OF_BANK :: AllLoadable(files[k])
    requires forall k | 0 <= k < NUM_OF_BANK :: AllLoadable(files'[k])
    requires forall k | c <= k < n :: files[k] == files'[k]
    ensures FirmwareFrom(files, c, n) == FirmwareFrom(files', c, n)
    decreases n - c
  {
    hide FirmwareCode, AllLoadable;
    if c < n {
      SameFirmware(files, files', c + 1, n);
    }
  }
}
