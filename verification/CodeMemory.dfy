/**
  The 8051's banked code memory and its serial port. Addresses 0x2000-0x9FFF are common to
  all banks; 0xA000-0xFFFF shows the window of the bank selected by BANKSEL.
 */
module CodeMemory {
  import opened MachineWords

  const NUM_OF_BANK: nat := 8
  const COMMONADDR_L: nat := 0x2000
  const BANKADDR_L: nat := 0xA000
  const CRAM_START: nat := 0x2100
  const COMMON_LEN: nat := 0x8000
  const CBANK_LEN: nat := 0x6000
  const COM_BANK0_LEN: nat := 0xE000

  datatype Ram = Ram(common: seq<byte>, windows: seq<seq<byte>>) {
    ghost predicate Valid() {
      && |common| == COMMON_LEN
      && |windows| == NUM_OF_BANK
      && forall b | 0 <= b < NUM_OF_BANK :: |windows[b]| == CBANK_LEN
    }

    /** Memory from 0x2000 on as the CPU sees it with bank b selected. */
    function View(b: nat): (mem: seq<byte>)
      requires Valid() && b < NUM_OF_BANK
      ensures |mem| == COM_BANK0_LEN
    {
      common + windows[b]
    }

    function WithView(b: nat, mem: seq<byte>): (r: Ram)
      requires Valid() && b < NUM_OF_BANK && |mem| == COM_BANK0_LEN
      ensures r.Valid() && r.View(b) == mem
      ensures forall k | 0 <= k < NUM_OF_BANK && k != b :: r.windows[k] == windows[k]
    {
      Ram(mem[..COMMON_LEN], windows[b := mem[COMMON_LEN..]])
    }
  }

  class CodeRam {
    var ram: Ram
    /** BANKSEL */
    var bank: nat
    /** EnableWrCRam: code fetches go to the serial flash, data writes to the code RAM. */
    var flashMapped: bool

    ghost predicate Valid()
      reads this
    {
      ram.Valid() && bank < NUM_OF_BANK
    }

    ghost function View(): (mem: seq<byte>)
      requires Valid()
      reads this
      ensures |mem| == COM_BANK0_LEN
    {
      ram.View(bank)
    }

    constructor (ram: Ram)
      requires ram.Valid()
      ensures Valid() && this.ram == ram && bank == 0 && !flashMapped
    {
      this.ram := ram;
      bank, flashMapped := 0, false;
    }

    method Enable()
      modifies this`flashMapped
      ensures flashMapped
    {
      flashMapped := true;
    }

    method Disable()
      modifies this`flashMapped
      ensures !flashMapped
    {
      flashMapped := false;
    }

    method Select(b: nat)
      requires Valid() && b < NUM_OF_BANK
      modifies this`bank
      ensures Valid() && bank == b
    {
      bank := b;
    }

    method Write(addr: nat, data: byte)
      requires Valid() && COMMONADDR_L <= addr <= 0xFFFF
      modifies this`ram
      ensures Valid() && View() == old(View())[addr - COMMONADDR_L := data]
      ensures ram == old(ram).WithView(bank, View())
    {
      if addr < BANKADDR_L {
        ram := ram.(common := ram.common[addr - COMMONADDR_L := data]);
      } else {
        ram := ram.(windows := ram.windows[bank := ram.windows[bank][addr - BANKADDR_L := data]]);
      }
      assert ram.windows == old(ram).WithView(bank, View()).windows;
    }

    method Read(addr: nat) returns (data: byte)
      requires Valid() && COMMONADDR_L <= addr <= 0xFFFF
      ensures data == View()[addr - COMMONADDR_L]
    {
      if addr < BANKADDR_L {
        data := ram.common[addr - COMMONADDR_L];
      } else {
        data := ram.windows[bank][addr - BANKADDR_L];
      }
    }
  }

  /** Replacing a bank's view twice keeps only the second replacement. */
  lemma WithViewTwice(ram: Ram, b: nat, m1: seq<byte>, m2: seq<byte>)
    requires ram.Valid() && b < NUM_OF_BANK && |m1| == |m2| == COM_BANK0_LEN
    ensures ram.WithView(b, m1).WithView(b, m2) == ram.WithView(b, m2)
  {}

  lemma WithOwnView(ram: Ram, b: nat)
    requires ram.Valid() && b < NUM_OF_BANK
    ensures ram.WithView(b, ram.View(b)) == ram
  {
    assert ram.View(b)[..COMMON_LEN] == ram.common;
    assert ram.windows[b := ram.View(b)[COMMON_LEN..]] == ram.windows;
  }

  /** The serial port, fed by a finite stream; reading past its end waits for ever. */
  class Uart {
    const data: seq<byte>
    var pos: nat

    ghost predicate Valid()
      reads this
    {
      pos <= |data|
    }

    constructor (data: seq<byte>)
      ensures Valid() && this.data == data && pos == 0
    {
      this.data := data;
      pos := 0;
    }

    method Get1char() returns (got: bool, c: byte)
      requires Valid()
      modifies this
      ensures Valid() && got == (old(pos) < |data|)
      ensures got ==> c == data[old(pos)] && pos == old(pos) + 1
      ensures !got ==> pos == old(pos)
    {
      got, c := pos < |data|, 0;
      if got {
        c := data[pos];
        pos := pos + 1;
      }
    }
  }
}
