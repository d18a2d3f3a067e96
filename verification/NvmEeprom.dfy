/** The EEPROM and its page buffer (nvm.c, nvm.h).  Only the locations of the buffer that have been
    loaded are written, a location loaded twice holds the AND of both values, and the buffer is
    empty again after an erase-and-write. */
module NvmEeprom {
  import opened NvmBytes

  const PAGE_SIZE: nat := 32

  datatype Command = NoOperation | EraseEepromBuffer | EraseWriteEepromPage | OtherCommand(code: nat)

  /** One location of the page buffer. */
  datatype Slot = Empty | Loaded(value: Cell)

  function Load(slot: Slot, value: Cell): Slot {
    if slot.Empty? then Loaded(value) else Loaded(And(slot.value, value))
  }

  ghost predicate AllEmpty(buffer: seq<Slot>) {
    forall i :: 0 <= i < |buffer| ==> buffer[i].Empty?
  }

  /** A write that starts with the full-page path. */
  predicate PageFirst(address: nat, len: nat) {
    address % PAGE_SIZE == 0 && len >= PAGE_SIZE
  }

  /** The bytes a write leaves in the EEPROM when the page buffer holds buffer on entry: the first
      page is loaded on top of it, unless a single byte, which flushes the buffer, comes first. */
  function Effective(buffer: seq<Slot>, address: nat, buf: seq<Cell>): (r: seq<Cell>)
    requires |buffer| == PAGE_SIZE
    ensures |r| == |buf|
    ensures forall i :: 0 <= i < |buf| ==>
      r[i] == if PageFirst(address, |buf|) && i < PAGE_SIZE then Load(buffer[i], buf[i]).value else buf[i]
  {
    seq(|buf|, i requires 0 <= i < |buf| =>
      if PageFirst(address, |buf|) && i < PAGE_SIZE then Load(buffer[i], buf[i]).value else buf[i])
  }

  /** The page buffer found on entry is harmless exactly when the write starts with a single byte
      or no loaded location clears a bit of its first page; an empty buffer is one such case. */
  lemma EffectiveIsBufIff(buffer: seq<Slot>, address: nat, buf: seq<Cell>)
    requires |buffer| == PAGE_SIZE
    ensures Effective(buffer, address, buf) == buf
       <==> (PageFirst(address, |buf|) ==>
               forall i :: 0 <= i < PAGE_SIZE && buffer[i].Loaded? ==> And(buffer[i].value, buf[i]) == buf[i])
    ensures AllEmpty(buffer) ==> Effective(buffer, address, buf) == buf
  {
    var r := Effective(buffer, address, buf);
    if PageFirst(address, |buf|) && r == buf {
      forall i | 0 <= i < PAGE_SIZE && buffer[i].Loaded? ensures And(buffer[i].value, buf[i]) == buf[i] {
        assert r[i] == buf[i];
      }
    }
  }

  /** What remains of a write after k bytes is the write of the remaining bytes. */
  lemma EffectiveRest(found: seq<Slot>, buffer: seq<Slot>, address: nat, buf: seq<Cell>, k: nat)
    requires |found| == |buffer| == PAGE_SIZE && k < |buf|
    requires if k == 0 then buffer == found else AllEmpty(buffer)
    requires PageFirst(address, |buf|) ==> k == 0 || k >= PAGE_SIZE
    ensures Effective(buffer, address + k, buf[k..]) == Effective(found, address, buf)[k..]
  {
  }

  /** A write in progress: n more bytes arrive behind the k already written. */
  lemma OverlayGrows(was: seq<Cell>, now: seq<Cell>, next: seq<Cell>, address: nat, eff: seq<Cell>, k: nat, n: nat)
    requires k + n <= |eff| && address + |eff| <= |was| == |next|
    requires now == Overlay(was, address, eff[..k])
    requires forall i :: 0 <= i < |was| ==>
      next[i] == if address + k <= i < address + k + n then eff[k..][i - (address + k)] else now[i]
    ensures next == Overlay(was, address, eff[..k + n])
  {
    var o := Overlay(was, address, eff[..k + n]);
    forall i | 0 <= i < |was| ensures next[i] == o[i] {
      if address <= i < address + k {
        assert now[i] == eff[..k][i - address];
      }
    }
  }

  class Eeprom {
    const mem: array<Cell>
    const buffer: array<Slot>
    /** NVM.CMD, the address registers, and the flag that says the page buffer is not empty. */
    var cmd: Command
    var addr: nat
    var eeload: bool

    /** The page number is passed in a byte and addresses in 16 bits. */
    ghost predicate Valid()
      reads this, buffer
    {
      && (mem as object) != buffer
      && buffer.Length == PAGE_SIZE
      && mem.Length % PAGE_SIZE == 0 && mem.Length <= 256 * PAGE_SIZE
      && (eeload <==> !AllEmpty(buffer[..]))
    }

    ghost predicate Clean()
      reads this, buffer
    {
      Valid() && AllEmpty(buffer[..])
    }

    constructor (pages: nat)
      requires pages <= 256
      ensures Clean() && fresh(mem) && fresh(buffer)
      ensures mem.Length == pages * PAGE_SIZE && AllErased(mem[..])
    {
      mem := new Cell[pages * PAGE_SIZE](_ => ERASED);
      buffer := new Slot[PAGE_SIZE](_ => Empty);
      cmd, addr, eeload := NoOperation, 0, false;
    }

    /** Hardware: carry out the command in NVM.CMD. */
    method Exec()
      requires Valid() && (cmd == EraseEepromBuffer || cmd == EraseWriteEepromPage)
      requires cmd == EraseWriteEepromPage ==> addr < mem.Length
      modifies this`eeload, mem, buffer
      ensures Clean()
      ensures forall i :: 0 <= i < mem.Length ==>
        mem[i] == if cmd == EraseWriteEepromPage && i / PAGE_SIZE == addr / PAGE_SIZE
                     && old(buffer[i % PAGE_SIZE]).Loaded?
                  then old(buffer[i % PAGE_SIZE]).value else old(mem[i])
    {
      if cmd == EraseWriteEepromPage {
        forall i | 0 <= i < mem.Length && i / PAGE_SIZE == addr / PAGE_SIZE && buffer[i % PAGE_SIZE].Loaded? {
          mem[i] := buffer[i % PAGE_SIZE].value;
        }
      }
      forall i | 0 <= i < PAGE_SIZE {
        buffer[i] := Empty;
      }
      eeload := false;
    }

    /** nvm_issue_command, for the erase-and-write of a page: NVM.CMD is saved and restored. */
    method IssueEraseWritePage()
      requires Valid() && addr < mem.Length
      modifies this`eeload, this`cmd, mem, buffer
      ensures Clean() && cmd == old(cmd)
      ensures forall i :: 0 <= i < mem.Length ==>
        mem[i] == if i / PAGE_SIZE == addr / PAGE_SIZE && old(buffer[i % PAGE_SIZE]).Loaded?
                  then old(buffer[i % PAGE_SIZE]).value else old(mem[i])
    {
      var oldCmd := cmd;
      cmd := EraseWriteEepromPage;
      Exec();
      cmd := oldCmd;
    }

    /** nvm_eeprom_flush_buffer: NVM.CMD is not preserved. */
    method FlushBuffer()
      requires Valid()
      modifies this`eeload, this`cmd, mem, buffer
      ensures Clean() && mem[..] == old(mem[..])
    {
      if eeload {
        cmd := EraseEepromBuffer;
        Exec();
      }
    }

    /** nvm_eeprom_load_byte_to_buffer: only the offset in the page counts. */
    method LoadByteToBuffer(byteAddr: nat, value: Cell)
      requires Valid() && byteAddr < 256
      modifies this`eeload, buffer
      ensures Valid()
      ensures forall j :: 0 <= j < PAGE_SIZE ==>
        buffer[j] == if j == byteAddr % PAGE_SIZE then Load(old(buffer[j]), value) else old(buffer[j])
    {
      var k := byteAddr % PAGE_SIZE;
      buffer[k] := Load(buffer[k], value);
      eeload := true;
      assert !buffer[..][k].Empty?;
    }

    /** nvm_eeprom_load_page_to_buffer. */
    method LoadPageToBuffer(values: seq<Cell>)
      requires Valid() && |values| >= PAGE_SIZE
      modifies this`eeload, buffer
      ensures Valid()
      ensures forall j :: 0 <= j < PAGE_SIZE ==> buffer[j] == Load(old(buffer[j]), values[j])
    {
      for i := 0 to PAGE_SIZE
        invariant Valid()
        invariant forall j :: 0 <= j < PAGE_SIZE ==>
          buffer[j] == if j < i then Load(old(buffer[j]), values[j]) else old(buffer[j])
      {
        LoadByteToBuffer(i, values[i]);
      }
    }

    /** nvm_eeprom_atomic_write_page: the page number arrives in a byte. */
    method AtomicWritePage(page: nat)
      requires Valid() && page < 256 && page * PAGE_SIZE < mem.Length
      modifies this, mem, buffer
      ensures Clean() && cmd == old(cmd)
      ensures forall i :: 0 <= i < mem.Length ==>
        mem[i] == if i / PAGE_SIZE == page && old(buffer[i % PAGE_SIZE]).Loaded?
                  then old(buffer[i % PAGE_SIZE]).value else old(mem[i])
    {
      addr := page * PAGE_SIZE;
      IssueEraseWritePage();
    }

    /** nvm_eeprom_write_byte: exactly one cell changes, whatever the page buffer held, although
        the address is cut to a byte for the load. */
    method WriteByte(address: nat, value: Cell)
      requires Valid() && address < mem.Length
      modifies this, mem, buffer
      ensures Clean() && cmd == old(cmd)
      ensures mem[..] == old(mem[..])[address := value]
    {
      ghost var was := mem[..];
      var oldCmd := cmd;
      FlushBuffer();
      LoadByteToBuffer(address % 256, value);
      assert (address % 256) % PAGE_SIZE == address % PAGE_SIZE;
      assert forall j :: 0 <= j < PAGE_SIZE ==> (buffer[..][j].Loaded? <==> j == address % PAGE_SIZE);
      addr := address;
      cmd := EraseWriteEepromPage;
      Exec();
      cmd := oldCmd;
      forall i | 0 <= i < mem.Length ensures mem[i] == was[address := value][i] {
        SameCell(i, address);
      }
    }

    /** The full-page step of nvm_eeprom_erase_and_write_buffer. */
    method WriteFullPage(address: nat, values: seq<Cell>)
      requires Valid() && address % PAGE_SIZE == 0 && address + PAGE_SIZE <= mem.Length && PAGE_SIZE <= |values|
      modifies this, mem, buffer
      ensures Clean() && cmd == old(cmd)
      ensures forall i :: 0 <= i < mem.Length ==>
        mem[i] == if address <= i < address + PAGE_SIZE
                  then Load(old(buffer[i - address]), values[i - address]).value else old(mem[i])
    {
      LoadPageToBuffer(values);
      AtomicWritePage((address / PAGE_SIZE) % 256);
      forall i | 0 <= i < mem.Length
        ensures i / PAGE_SIZE == address / PAGE_SIZE <==> address <= i < address + PAGE_SIZE
        ensures address <= i < address + PAGE_SIZE ==> i % PAGE_SIZE == i - address
      {
      }
    }

    /** One iteration of nvm_eeprom_erase_and_write_buffer: a full page if possible, else a byte. */
    method WriteNext(address: nat, rest: seq<Cell>) returns (n: nat)
      requires Valid() && 0 < |rest| && address + |rest| <= mem.Length
      modifies this, mem, buffer
      ensures Clean() && cmd == old(cmd)
      ensures n == if PageFirst(address, |rest|) then PAGE_SIZE else 1
      ensures forall i :: 0 <= i < mem.Length ==>
        mem[i] == if address <= i < address + n
                  then Effective(old(buffer[..]), address, rest)[i - address] else old(mem[i])
    {
      if address % PAGE_SIZE == 0 && |rest| >= PAGE_SIZE {
        WriteFullPage(address, rest);
        n := PAGE_SIZE;
      } else {
        WriteByte(address, rest[0]);
        n := 1;
        assert forall i :: 0 <= i < mem.Length ==> mem[i] == mem[..][i];
      }
    }

    /** The state of nvm_eeprom_erase_and_write_buffer when k bytes are written. */
    ghost predicate Progress(was: seq<Cell>, found: seq<Slot>, address: nat, buf: seq<Cell>, k: nat)
      requires |found| == PAGE_SIZE && k <= |buf| && address + |buf| <= |was|
      reads this, mem, buffer
    {
      && Valid() && |was| == mem.Length
      && (if k == 0 then buffer[..] == found else Clean())
      && (PageFirst(address, |buf|) ==> k == 0 || k >= PAGE_SIZE)
      && mem[..] == Overlay(was, address, Effective(found, address, buf)[..k])
    }

    /** One round of its loop. */
    method WriteRound(ghost was: seq<Cell>, ghost found: seq<Slot>, address: nat, buf: seq<Cell>, k: nat)
      returns (n: nat)
      requires |found| == PAGE_SIZE && k < |buf| && address + |buf| <= |was|
      requires Progress(was, found, address, buf, k)
      modifies this, mem, buffer
      ensures 0 < n && k + n <= |buf| && cmd == old(cmd)
      ensures Clean() && Progress(was, found, address, buf, k + n)
    {
      hide Overlay, Effective;
      ghost var now, eff := mem[..], Effective(found, address, buf);
      EffectiveRest(found, buffer[..], address, buf, k);
      n := WriteNext(address + k, buf[k..]);
      OverlayGrows(was, now, mem[..], address, eff, k, n);
    }

    /** nvm_eeprom_erase_and_write_buffer. */
    method EraseAndWriteBuffer(address: nat, buf: seq<Cell>)
      requires Valid() && address + |buf| <= mem.Length
      modifies this, mem, buffer
      ensures Valid() && cmd == old(cmd)
      ensures mem[..] == Overlay(old(mem[..]), address, Effective(old(buffer[..]), address, buf))
      ensures |buf| > 0 || old(Clean()) ==> Clean()
    {
      ghost var was, found, eff := mem[..], buffer[..], Effective(buffer[..], address, buf);
      var at, k := address, 0;
      assert eff[..0] == [];
      while k < |buf|
        invariant k <= |buf| && at == address + k && cmd == old(cmd)
        invariant Progress(was, found, address, buf, k)
        decreases |buf| - k
      {
        var n := WriteRound(was, found, address, buf, k);
        at := at + n;
        k := k + n;
      }
      assert eff[..k] == eff;
    }

    /** nvm_eeprom_read_buffer. */
    method ReadBuffer(address: nat, len: nat) returns (buf: seq<Cell>)
      requires address + len <= mem.Length
      ensures buf == mem[address..address + len]
    {
      buf := mem[address..address + len];
    }

    /** From an empty page buffer, what is written is what is read. */
    method WriteThenRead(address: nat, buf: seq<Cell>) returns (back: seq<Cell>)
      requires Clean() && address + |buf| <= mem.Length
      modifies this, mem, buffer
      ensures back == buf && Clean()
    {
      EffectiveIsBufIff(buffer[..], address, buf);
      EraseAndWriteBuffer(address, buf);
      OverlayReadBack(old(mem[..]), address, buf);
      back := ReadBuffer(address, |buf|);
    }
  }

  lemma SameCell(i: nat, j: nat)
    ensures i == j <==> i / PAGE_SIZE == j / PAGE_SIZE && i % PAGE_SIZE == j % PAGE_SIZE
  {
    assert i == PAGE_SIZE * (i / PAGE_SIZE) + i % PAGE_SIZE;
    assert j == PAGE_SIZE * (j / PAGE_SIZE) + j % PAGE_SIZE;
  }
}
