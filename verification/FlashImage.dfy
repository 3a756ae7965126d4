/**
  The firmware image in flash: 0x38000 bytes, a CRC table in bytes 0-15, bank 0's code from
  0x100 and seven 0x6000-byte banks behind it. The primary image is at 0, the backup at 0x50000.
 */
module FlashImage {
  import opened MachineWords
  import opened Buffers
  import opened CodeMemory
  import opened SpiFlashDrv
  import Crc

  const IMAGE_LEN: nat := 0x3_8000
  const BACKUP_START: nat := 0x5_0000
  const PRIMARY_ERASE: nat := 0x4_0000
  const BACKUP_ERASE: nat := 0x9_0000

  function BankLo(b: nat): nat { if b == 0 then 0x100 else 0xE000 + (b - 1) * 0x6000 }

  function BankLen(b: nat): nat { if b == 0 then 0xDF00 else 0x6000 }

  function Window(image: seq<byte>, b: nat): (w: seq<byte>)
    requires |image| >= IMAGE_LEN && b < NUM_OF_BANK
    ensures |w| == BankLen(b)
  {
    image[BankLo(b)..BankLo(b) + BankLen(b)]
  }

  /** The stored CRC of bank b is the CRC of its window. */
  predicate ValidBank(image: seq<byte>, b: nat)
    requires |image| >= IMAGE_LEN && b < NUM_OF_BANK
  {
    && image[2 * b] == Lo8(Crc.Of(Window(image, b)))
    && image[2 * b + 1] == Hi8(Crc.Of(Window(image, b)))
  }

  /** A bank is valid just when its table entry, low byte first, is the bit-serial CRC of its code. */
  lemma ValidBankIff(image: seq<byte>, b: nat)
    requires |image| >= IMAGE_LEN && b < NUM_OF_BANK
    ensures ValidBank(image, b) <==>
      ((image[2 * b + 1] as word) << 8) | image[2 * b] as word == Crc.BitSerial(0, Crc.MessageBits(Window(image, b)))
  {
    var low, high, crc := image[2 * b], image[2 * b + 1], Crc.Of(Window(image, b));
    Crc.FoldIsBitSerial(0, Window(image, b));
    JoinIs(high, low);
    hide Crc.Fold, Crc.BitSerial, Crc.MessageBits, Window, Join, Lo8, Hi8;
    JoinHalves(crc, high, low);
  }

  predicate ValidImage(image: seq<byte>) {
    |image| == IMAGE_LEN && forall b | 0 <= b < NUM_OF_BANK :: ValidBank(image, b)
  }

  function Primary(cells: seq<byte>): (image: seq<byte>)
    requires |cells| == CHIP_SIZE
    ensures |image| == IMAGE_LEN
  {
    cells[..IMAGE_LEN]
  }

  function Backup(cells: seq<byte>): (image: seq<byte>)
    requires |cells| == CHIP_SIZE
    ensures |image| == IMAGE_LEN
  {
    cells[BACKUP_START..BACKUP_START + IMAGE_LEN]
  }

  /** Where the images, and a bank in flash and in RAM, are, in numbers. */
  lemma LayoutIs(cells: seq<byte>, mem: seq<byte>, b: nat)
    requires |cells| == CHIP_SIZE && |mem| == 0xE000 && b < 8
    ensures Primary(cells) == cells[..0x3_8000] && Backup(cells) == cells[0x5_0000..0x8_8000]
    ensures Window(Primary(cells), b) ==
      if b == 0 then cells[0x100..0xE000] else cells[0x8000 + b * 0x6000..0xE000 + b * 0x6000]
    ensures Code(b, mem) == if b == 0 then mem[0x100..] else mem[0x8000..]
  {
    var lo, hi := BankLo(b), BankLo(b) + BankLen(b);
    assert cells[..0x3_8000][lo..hi] == cells[lo..hi];
  }

  // ------------------------------------------------------------ corruption is caught

  /** A change within two neighbouring bytes of one bank's code makes the image invalid. */
  lemma CorruptBankIsInvalid(image: seq<byte>, bad: seq<byte>, b: nat, i: nat)
    requires ValidImage(image) && |bad| == IMAGE_LEN && bad != image && b < NUM_OF_BANK
    requires BankLo(b) <= i && i + 1 < BankLo(b) + BankLen(b)
    requires Crc.DifferWithin(image, bad, i)
    ensures !ValidBank(bad, b) && !ValidImage(bad)
  {
    hide Crc.Fold, Lo8, Hi8;
    var w, v := Window(image, b), Window(bad, b);
    assert Crc.DifferWithin(w, v, i - BankLo(b)) by {
      assert forall k | 0 <= k < |w| :: w[k] == image[BankLo(b) + k] && v[k] == bad[BankLo(b) + k];
    }
    var k :| 0 <= k < IMAGE_LEN && image[k] != bad[k];
    assert w[k - BankLo(b)] != v[k - BankLo(b)];
    Crc.BurstChangesCrc(0, w, v, i - BankLo(b));
    assert image[2 * b] == bad[2 * b] && image[2 * b + 1] == bad[2 * b + 1];
    assert ValidBank(image, b);
    if ValidBank(bad, b) {
      HalvesDetermine(Crc.Of(w), Crc.Of(v));
    }
  }

  /** Any change confined to the CRC table makes the image invalid. */
  lemma CorruptTableIsInvalid(image: seq<byte>, bad: seq<byte>)
    requires ValidImage(image) && bad != image && SameOutside(image, bad, 0, 16)
    ensures !ValidImage(bad)
  {
    hide Crc.Fold, Lo8, Hi8;
    var i :| 0 <= i < 16 && image[i] != bad[i];
    var b := i / 2;
    assert Window(image, b) == Window(bad, b) by { SameSlice(image, bad, 0, 16, BankLo(b), BankLo(b) + BankLen(b)); }
    assert i == 2 * b || i == 2 * b + 1;
    assert ValidBank(image, b);
    assert !ValidBank(bad, b);
  }

  // ------------------------------------------------------------ power cuts

  /** The primary or the backup image is valid, so that the loader will run one of them. */
  predicate Bootable(cells: seq<byte>)
    requires |cells| == CHIP_SIZE
  {
    ValidImage(Primary(cells)) || ValidImage(Backup(cells))
  }

  /** Whatever a power cut during the access leaves is bootable. */
  ghost predicate SafeAccess(a: Access) {
    && |a.before| == CHIP_SIZE
    && forall cells | CutState(a, cells) :: Bootable(cells)
  }

  ghost predicate AlwaysSafe(log: seq<Access>, from: nat) {
    forall k | from <= k < |log| :: SafeAccess(log[k])
  }

  /** Accesses kept off a valid backup are safe. */
  lemma SafeWithBackup(log: seq<Access>, from: nat, base: seq<byte>)
    requires |base| == CHIP_SIZE && ValidImage(Backup(base)) && Confined(log, from, base, 0, PRIMARY_ERASE)
    ensures AlwaysSafe(log, from)
  {
    hide ValidImage;
    forall k | from <= k < |log| ensures SafeAccess(log[k]) {
      forall cells | CutState(log[k], cells) ensures ValidImage(Backup(cells)) {
        SameSlice(base, log[k].before, 0, PRIMARY_ERASE, BACKUP_START, BACKUP_START + IMAGE_LEN);
        SameSlice(log[k].before, cells, log[k].lo, log[k].hi, BACKUP_START, BACKUP_START + IMAGE_LEN);
      }
    }
  }

  /** Accesses kept off a valid primary are safe. */
  lemma SafeWithPrimary(log: seq<Access>, from: nat, base: seq<byte>)
    requires |base| == CHIP_SIZE && ValidImage(Primary(base))
    requires Confined(log, from, base, PRIMARY_ERASE, BACKUP_ERASE)
    ensures AlwaysSafe(log, from)
  {
    hide ValidImage;
    forall k | from <= k < |log| ensures SafeAccess(log[k]) {
      forall cells | CutState(log[k], cells) ensures ValidImage(Primary(cells)) {
        SameSlice(base, log[k].before, PRIMARY_ERASE, BACKUP_ERASE, 0, IMAGE_LEN);
        SameSlice(log[k].before, cells, log[k].lo, log[k].hi, 0, IMAGE_LEN);
      }
    }
  }

  /** An access to byte 0 while the backup is invalid is not safe: byte 0 may come out wrong. */
  lemma UnsafeWithoutBackup(a: Access)
    requires |a.before| == CHIP_SIZE && !ValidImage(Backup(a.before)) && a.lo == 0 && 1 <= a.hi <= PRIMARY_ERASE
    ensures !SafeAccess(a)
  {
    hide Crc.Fold, Crc.Of, Lo8, Hi8;
    assert CutState(a, a.before);
    if ValidImage(Primary(a.before)) {
      var torn := a.before[0 := !a.before[0]];
      assert CutState(a, torn);
      assert Backup(torn) == Backup(a.before);
      assert torn[0] != a.before[0];
      CorruptTableIsInvalid(Primary(a.before), Primary(torn));
    }
  }

  // ------------------------------------------------------------ images as the downloader builds them

  /** The programmed part of a bank's view of RAM. */
  function Code(b: nat, mem: seq<byte>): (code: seq<byte>)
    requires b < NUM_OF_BANK && |mem| == COM_BANK0_LEN
    ensures |code| == BankLen(b)
  {
    if b == 0 then mem[0x100..] else mem[COMMON_LEN..]
  }

  /**
    The primary area after the banks in `wins` have been programmed: their code and CRCs are
    in place and every other byte of the erased 256K is blank.
   */
  ghost predicate Programs(cells: seq<byte>, wins: seq<seq<byte>>) {
    var n := |wins|;
    && |cells| == CHIP_SIZE && n <= NUM_OF_BANK
    && (forall j | 0 <= j < n :: ProgramsBank(cells, j, wins[j]))
    && (forall i | 2 * n <= i < 0x100 :: cells[i] == BLANK)
    && (forall i | BankLo(n) <= i < PRIMARY_ERASE :: cells[i] == BLANK)
  }

  predicate ProgramsBank(cells: seq<byte>, j: nat, win: seq<byte>)
    requires |cells| == CHIP_SIZE && j < NUM_OF_BANK
  {
    && Window(cells, j) == win
    && cells[2 * j] == Lo8(Crc.Of(win))
    && cells[2 * j + 1] == Hi8(Crc.Of(win))
  }

  lemma ErasedPrograms(cells: seq<byte>)
    requires |cells| == CHIP_SIZE
    ensures Programs(Erased(cells, 0, PRIMARY_ERASE), [])
  {}

  /** Programming one more bank and its table entry disturbs neither the table nor another bank. */
  lemma ProgramsNext(cells: seq<byte>, wins: seq<seq<byte>>, win: seq<byte>, after: seq<byte>)
    requires Programs(cells, wins) && |wins| < NUM_OF_BANK && |win| == BankLen(|wins|)
    requires var n, crc := |wins|, Crc.Of(win);
             after == Splice(cells, BankLo(n), win)[2 * n := Lo8(crc)][2 * n + 1 := Hi8(crc)]
    ensures Programs(after, wins + [win])
    ensures SameOutside(cells, after, 0, PRIMARY_ERASE)
  {
    hide Crc.Of, Lo8, Hi8, Splice;
    var n := |wins|;
    BankAndEntry(cells, n, win, Lo8(Crc.Of(win)), Hi8(Crc.Of(win)), after);
    forall j | 0 <= j < n + 1 ensures ProgramsBank(after, j, (wins + [win])[j]) {
      if j < n {
        assert ProgramsBank(cells, j, wins[j]);
        OtherBank(cells, after, n, j);
      }
    }
  }

  /** Bank n's code and entry, and nothing else, are different. */
  ghost predicate OnlyBank(cells: seq<byte>, after: seq<byte>, n: nat) {
    && |cells| == |after| == CHIP_SIZE
    && forall i | 0 <= i < CHIP_SIZE && !(BankLo(n) <= i < BankLo(n) + BankLen(n)) && i != 2 * n && i != 2 * n + 1 ::
      after[i] == cells[i]
  }

  lemma BankAndEntry(cells: seq<byte>, n: nat, win: seq<byte>, low: byte, high: byte, after: seq<byte>)
    requires |cells| == CHIP_SIZE && n < NUM_OF_BANK && |win| == BankLen(n)
    requires after == Splice(cells, BankLo(n), win)[2 * n := low][2 * n + 1 := high]
    ensures OnlyBank(cells, after, n)
    ensures Window(after, n) == win && after[2 * n] == low && after[2 * n + 1] == high
  {
    SpliceHolds(cells, BankLo(n), win);
  }

  lemma OtherBank(cells: seq<byte>, after: seq<byte>, n: nat, j: nat)
    requires OnlyBank(cells, after, n) && j < n < NUM_OF_BANK
    ensures Window(after, j) == Window(cells, j)
    ensures after[2 * j] == cells[2 * j] && after[2 * j + 1] == cells[2 * j + 1]
  {
    forall i | BankLo(j) <= i < BankLo(j) + BankLen(j) ensures after[i] == cells[i] {}
  }

  /** Eight programmed banks are a valid image. */
  lemma ProgramsAllIsValid(cells: seq<byte>, wins: seq<seq<byte>>)
    requires Programs(cells, wins) && |wins| == NUM_OF_BANK
    ensures ValidImage(Primary(cells))
    ensures forall b | 0 <= b < NUM_OF_BANK :: Window(Primary(cells), b) == wins[b]
  {
    hide Crc.Of, Lo8, Hi8;
    forall b | 0 <= b < NUM_OF_BANK
      ensures ValidBank(Primary(cells), b) && Window(Primary(cells), b) == wins[b]
    {
      assert ProgramsBank(cells, b, wins[b]);
      assert Window(Primary(cells), b) == Window(cells, b);
    }
  }

  /** Programming only up to the high-water mark is programming everything, as the rest is blank. */
  lemma BlankTailNeedsNoProgramming(cells: seq<byte>, at: nat, data: seq<byte>, k: nat)
    requires at + |data| <= |cells| && k <= |data|
    requires forall i | k <= i < |data| :: data[i] == BLANK
    requires forall i | at <= i < at + |data| :: cells[i] == BLANK
    ensures Splice(cells, at, data[..k]) == Splice(cells, at, data)
  {
    var l, r := Splice(cells, at, data[..k]), Splice(cells, at, data);
    forall i | 0 <= i < |cells| ensures l[i] == r[i] {
      if at + k <= i < at + |data| {
        assert r[i] == data[i - at] == BLANK == cells[i] == l[i];
      }
    }
  }
}
