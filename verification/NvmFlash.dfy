/** The flash application section and the user signature row, written through one page buffer
    (nvm.c, nvm.h).  The application writer chooses, page by page, between an erase-and-write and
    a write that can only clear bits.  Sizes are those of the ATxmega256A3U, whose flash addresses
    are 32 bits wide, so no address computation wraps. */
module NvmFlash {
  import opened NvmBytes

  const FLASH_SIZE: nat := 0x4_0000
  const PAGE_SIZE: nat := 512

  /** What cell i must hold in the page buffer before its page is written. */
  ghost function Staged(mem: seq<Cell>, at: nat, buf: seq<Cell>, blankCheck: bool, i: nat): Cell
    requires at + |buf| <= |mem| && i < |mem|
  {
    if at <= i < at + |buf| then buf[i - at] else if blankCheck then mem[i] else ERASED
  }

  /** The memory a call of EraseAndWriteBuffer must leave. */
  ghost function Written(mem: seq<Cell>, at: nat, buf: seq<Cell>, blankCheck: bool): (r: seq<Cell>)
    requires at + |buf| <= |mem|
    ensures |r| == |mem|
  {
    if blankCheck then Overlay(mem, at, buf) else AndOverlay(mem, at, buf)
  }

  ghost predicate BlankRange(mem: seq<Cell>, base: nat, n: nat)
    requires base + n <= |mem|
  {
    forall i :: base <= i < base + n ==> mem[i] == ERASED
  }

  /** How many bytes of a buffer of length n at address at lie below address limit. */
  function Below(at: nat, n: nat, limit: nat): nat {
    if limit <= at then 0 else if limit >= at + n then n else limit - at
  }

  /** What is staged is written: directly over an erased page or a page erased by the command,
      and through the AND of the cells otherwise. */
  lemma StagedIsWritten(mem: seq<Cell>, at: nat, buf: seq<Cell>, blankCheck: bool, i: nat)
    requires at + |buf| <= |mem| && i < |mem|
    ensures blankCheck ==> Staged(mem, at, buf, blankCheck, i) == Written(mem, at, buf, blankCheck)[i]
    ensures !blankCheck || mem[i] == ERASED ==>
      And(mem[i], Staged(mem, at, buf, blankCheck, i)) == Written(mem, at, buf, blankCheck)[i]
  {
    AndErased(mem[i]);
    AndErased(Staged(mem, at, buf, blankCheck, i));
  }

  /** What that becomes when the page buffer already holds found for the page at base: a location
      loaded twice holds the AND of both values. */
  ghost function WrittenThrough(mem: seq<Cell>, at: nat, buf: seq<Cell>, blankCheck: bool,
                                found: seq<Cell>, base: nat): (r: seq<Cell>)
    requires at + |buf| <= |mem| && |found| == PAGE_SIZE
    ensures |r| == |mem|
    ensures forall i :: 0 <= i < |mem| ==>
      r[i] == if base <= i < base + PAGE_SIZE then And(found[i - base], Written(mem, at, buf, blankCheck)[i])
              else Written(mem, at, buf, blankCheck)[i]
  {
    seq(|mem|, i requires 0 <= i < |mem| =>
      if base <= i < base + PAGE_SIZE then And(found[i - base], Written(mem, at, buf, blankCheck)[i])
      else Written(mem, at, buf, blankCheck)[i])
  }

  /** A buffer found on entry is harmless exactly when no location of it clears a bit of what the
      page is to hold; an erased buffer is one such case. */
  lemma FoundIsHarmlessIff(mem: seq<Cell>, at: nat, buf: seq<Cell>, blankCheck: bool, found: seq<Cell>, base: nat)
    requires at + |buf| <= |mem| && |found| == PAGE_SIZE && base + PAGE_SIZE <= |mem|
    ensures var w := Written(mem, at, buf, blankCheck);
      WrittenThrough(mem, at, buf, blankCheck, found, base) == w <==>
      forall j :: 0 <= j < PAGE_SIZE ==> And(found[j], w[base + j]) == w[base + j]
    ensures AllErased(found) ==>
      WrittenThrough(mem, at, buf, blankCheck, found, base) == Written(mem, at, buf, blankCheck)
  {
    var w, r := Written(mem, at, buf, blankCheck), WrittenThrough(mem, at, buf, blankCheck, found, base);
    forall j | 0 <= j < PAGE_SIZE ensures AllErased(found) ==> And(found[j], w[base + j]) == w[base + j] {
      AndErased(w[base + j]);
    }
    if r == w {
      forall j | 0 <= j < PAGE_SIZE ensures And(found[j], w[base + j]) == w[base + j] {
        assert r[base + j] == w[base + j];
      }
    }
    if forall j :: 0 <= j < PAGE_SIZE ==> And(found[j], w[base + j]) == w[base + j] {
      forall i | 0 <= i < |mem| ensures r[i] == w[i] {
        if base <= i < base + PAGE_SIZE {
          assert And(found[i - base], w[base + (i - base)]) == w[base + (i - base)];
        }
      }
    }
  }

  /** One cell of a page whose buffer held head before it was staged. */
  lemma CellWritten(mem: seq<Cell>, at: nat, buf: seq<Cell>, blankCheck: bool, i: nat, head: Cell, staged: Cell)
    requires at + |buf| <= |mem| && i < |mem| && staged == And(head, Staged(mem, at, buf, blankCheck, i))
    ensures blankCheck ==> staged == And(head, Written(mem, at, buf, blankCheck)[i])
    ensures !blankCheck || mem[i] == ERASED ==>
      And(mem[i], staged) == And(head, Written(mem, at, buf, blankCheck)[i])
  {
    StagedIsWritten(mem, at, buf, blankCheck, i);
    AndSwap(mem[i], head, Staged(mem, at, buf, blankCheck, i));
  }

  lemma NothingWritten(mem: seq<Cell>, at: nat, buf: seq<Cell>, blankCheck: bool, i: nat)
    requires at <= |mem| && buf == [] && i < |mem|
    ensures Written(mem, at, buf, blankCheck)[i] == mem[i]
  {}

  lemma AndSwap(a: Cell, b: Cell, c: Cell)
    ensures And(a, And(b, c)) == And(b, And(a, c))
  {}

  lemma PageOffset(base: nat, pos: nat)
    requires base % PAGE_SIZE == 0 && pos < PAGE_SIZE
    ensures (base + pos) % PAGE_SIZE == pos
  {
    var q := base / PAGE_SIZE;
    assert base == q * PAGE_SIZE;
  }

  // ----- the loop of nvm_user_sig_write_buffer

  /** The offset in the row a write starts at: the address is cut to 16 bits. */
  function RowAddress(address: nat, len: nat): nat {
    if len == 0 then 0 else address % 0x1_0000
  }

  /** The write stays inside the row. */
  predicate FitsRow(address: nat, len: nat) {
    len == 0 || address % 0x1_0000 + len <= PAGE_SIZE
  }

  /** A pass over the row takes the bytes that lie on it and starts over at its beginning: opt is the
      address of the next byte and len what remains. */
  function Pass(opt: nat, len: nat): (nat, nat) {
    (opt + Below(opt, len, PAGE_SIZE), len - Below(opt, len, PAGE_SIZE))
  }

  /** After a number of passes nothing remains. */
  predicate EndsAfter(opt: nat, len: nat, passes: nat)
    decreases passes
  {
    len == 0 || (passes > 0 && EndsAfter(Pass(opt, len).0, Pass(opt, len).1, passes - 1))
  }

  /** Behind the end of the row every pass takes nothing. */
  lemma {:induction false} NeverEnds(opt: nat, len: nat, passes: nat)
    requires opt >= PAGE_SIZE && len > 0
    ensures !EndsAfter(opt, len, passes)
    decreases passes
  {
    if passes > 0 {
      NeverEnds(opt, len, passes - 1);
    }
  }

  /** The outer loop ends after some number of passes. */
  ghost predicate Ends(opt: nat, len: nat) {
    exists passes: nat :: EndsAfter(opt, len, passes)
  }

  /** The loop ends exactly if the write stays inside the row. */
  lemma UserSigEndsIff(address: nat, len: nat)
    ensures Ends(address % 0x1_0000, len) <==> FitsRow(address, len)
  {
    var opt := address % 0x1_0000;
    if FitsRow(address, len) {
      EndsAtOnce(opt, len);
    } else {
      forall passes: nat ensures !EndsAfter(opt, len, passes) {
        if passes > 0 {
          NeverEnds(Pass(opt, len).0, Pass(opt, len).1, passes - 1);
        }
      }
    }
  }

  lemma EndsAtOnce(opt: nat, len: nat)
    requires len == 0 || opt + len <= PAGE_SIZE
    ensures Ends(opt, len)
  {
    var once: nat := 1;
    assert len > 0 ==> Pass(opt, len).1 == 0;
    assert EndsAfter(opt, len, once);
  }

  class FlashController {
    const mem: array<Cell>
    const userRow: array<Cell>
    const buffer: array<Cell>

    ghost predicate Valid() {
      && mem != buffer && userRow != buffer && userRow != mem
      && buffer.Length == PAGE_SIZE
      && mem.Length == FLASH_SIZE
      && userRow.Length == PAGE_SIZE
    }

    constructor ()
      ensures Valid() && fresh(mem) && fresh(userRow) && fresh(buffer)
      ensures AllErased(mem[..]) && AllErased(userRow[..]) && AllErased(buffer[..])
    {
      mem := new Cell[FLASH_SIZE](_ => ERASED);
      userRow := new Cell[PAGE_SIZE](_ => ERASED);
      buffer := new Cell[PAGE_SIZE](_ => ERASED);
    }

    /** Hardware: load a word; only the offset inside the page counts, and a location that
        was already loaded keeps the AND of the two values. */
    method LoadWordToBuffer(wordAddr: nat, lsb: Cell, msb: Cell)
      requires Valid() && wordAddr % PAGE_SIZE + 1 < PAGE_SIZE
      modifies buffer
      ensures forall j :: 0 <= j < PAGE_SIZE ==>
        buffer[j] == if j == wordAddr % PAGE_SIZE then And(old(buffer[j]), lsb)
                     else if j == wordAddr % PAGE_SIZE + 1 then And(old(buffer[j]), msb) else old(buffer[j])
    {
      var k := wordAddr % PAGE_SIZE;
      buffer[k] := And(buffer[k], lsb);
      buffer[k + 1] := And(buffer[k + 1], msb);
    }

    /** Hardware: program the page at pageAddr without erasing it; the page buffer is erased
        when the command has been carried out. */
    method SplitWriteAppPage(pageAddr: nat)
      requires Valid() && pageAddr % PAGE_SIZE == 0 && pageAddr < mem.Length
      modifies mem, buffer
      ensures AllErased(buffer[..])
      ensures forall i :: 0 <= i < mem.Length ==>
        mem[i] == if pageAddr <= i < pageAddr + PAGE_SIZE
                  then And(old(mem[i]), old(buffer[i - pageAddr])) else old(mem[i])
    {
      forall i | pageAddr <= i < pageAddr + PAGE_SIZE {
        mem[i] := And(mem[i], buffer[i - pageAddr]);
      }
      forall i | 0 <= i < PAGE_SIZE {
        buffer[i] := ERASED;
      }
    }

    /** Hardware: erase the page at pageAddr and program it, in one command. */
    method AtomicWriteAppPage(pageAddr: nat)
      requires Valid() && pageAddr % PAGE_SIZE == 0 && pageAddr < mem.Length
      modifies mem, buffer
      ensures AllErased(buffer[..])
      ensures forall i :: 0 <= i < mem.Length ==>
        mem[i] == if pageAddr <= i < pageAddr + PAGE_SIZE then old(buffer[i - pageAddr]) else old(mem[i])
    {
      forall i | pageAddr <= i < pageAddr + PAGE_SIZE {
        mem[i] := buffer[i - pageAddr];
      }
      forall i | 0 <= i < PAGE_SIZE {
        buffer[i] := ERASED;
      }
    }

    /** One word of a page: read it if it must be preserved and merge in the bytes of buf that
        fall on it.  k counts the bytes of buf already consumed. */
    static method MergeWord(src: array<Cell>, address: nat, buf: seq<Cell>, blankCheck: bool,
                            pageAddress: nat, optIn: nat, kIn: nat)
      returns (opt: nat, k: nat, lsb: Cell, msb: Cell, blank: bool)
      requires pageAddress + 1 < src.Length && address + |buf| <= src.Length
      requires kIn == Below(address, |buf|, pageAddress) && optIn == address + kIn
      ensures k == Below(address, |buf|, pageAddress + 2) && opt == address + k
      ensures lsb == Staged(src[..], address, buf, blankCheck, pageAddress)
      ensures msb == Staged(src[..], address, buf, blankCheck, pageAddress + 1)
      ensures blank <==> !blankCheck || (src[pageAddress] == ERASED && src[pageAddress + 1] == ERASED)
    {
      opt, k, lsb, msb := optIn, kIn, ERASED, ERASED;
      if blankCheck {
        lsb, msb := src[pageAddress], src[pageAddress + 1];
      }
      blank := lsb == ERASED && msb == ERASED;
      if k < |buf| && opt == pageAddress {
        lsb, k, opt := buf[k], k + 1, opt + 1;
      }
      if k < |buf| && opt == pageAddress + 1 {
        msb, k, opt := buf[k], k + 1, opt + 1;
      }
    }

    /** The word loop both writers share: stage every word of the page of src at base. */
    method StagePage(src: array<Cell>, address: nat, buf: seq<Cell>, blankCheck: bool,
                     base: nat, optIn: nat, kIn: nat)
      returns (pageAddress: nat, opt: nat, k: nat, mustErase: bool)
      requires Valid() && src != buffer && base % PAGE_SIZE == 0
      requires base + PAGE_SIZE <= src.Length && address + |buf| <= src.Length
      requires kIn == Below(address, |buf|, base) && optIn == address + kIn
      modifies buffer
      ensures pageAddress == base + PAGE_SIZE
      ensures k == Below(address, |buf|, pageAddress) && opt == address + k
      ensures forall j :: 0 <= j < PAGE_SIZE ==>
        buffer[j] == And(old(buffer[j]), Staged(src[..], address, buf, blankCheck, base + j))
      ensures mustErase <==> blankCheck && !BlankRange(src[..], base, PAGE_SIZE)
    {
      pageAddress, opt, k, mustErase := base, optIn, kIn, false;
      ghost var was := src[..];
      var pagePos := 0;
      ghost var words := 0;
      while pagePos < PAGE_SIZE
        invariant 0 <= pagePos == 2 * words <= PAGE_SIZE && pageAddress == base + pagePos
        invariant k == Below(address, |buf|, pageAddress) && opt == address + k
        invariant forall j :: 0 <= j < pagePos ==>
          buffer[j] == And(old(buffer[j]), Staged(was, address, buf, blankCheck, base + j))
        invariant forall j :: pagePos <= j < PAGE_SIZE ==> buffer[j] == old(buffer[j])
        invariant mustErase <==> blankCheck && !BlankRange(was, base, pagePos)
      {
        PageOffset(base, pagePos);
        var lsb, msb, blank;
        opt, k, lsb, msb, blank := MergeWord(src, address, buf, blankCheck, pageAddress, opt, k);
        if !blank {
          mustErase := true;
        }
        LoadWordToBuffer(pageAddress, lsb, msb);
        pageAddress := pageAddress + 2;
        pagePos := pagePos + 2;
        words := words + 1;
      }
    }

    /** nvm_flash_erase_and_write_buffer. */
    method EraseAndWriteBuffer(address: nat, buf: seq<Cell>, blankCheck: bool)
      requires Valid() && address + |buf| <= mem.Length
      modifies mem, buffer
      ensures mem[..] == if |buf| == 0 then old(mem[..])
                         else WrittenThrough(old(mem[..]), address, buf, blankCheck, old(buffer[..]),
                                             address - address % PAGE_SIZE)
      ensures if |buf| == 0 then buffer[..] == old(buffer[..]) else AllErased(buffer[..])
    {
      hide WrittenThrough, And;
      ghost var was, found := mem[..], buffer[..];
      var k, opt := 0, address;
      var pageAddress := opt - opt % PAGE_SIZE;
      ghost var first := pageAddress;
      ghost var goal := WrittenThrough(was, address, buf, blankCheck, found, first);
      while k < |buf|
        invariant 0 <= first <= pageAddress && pageAddress % PAGE_SIZE == 0
        invariant k == Below(address, |buf|, pageAddress) && opt == address + k
        invariant k < |buf| ==> opt < pageAddress + PAGE_SIZE
        invariant pageAddress == first ==> k == 0 && buffer[..] == found && mem[..] == was
        invariant pageAddress > first ==> |buf| > 0 && pageAddress >= first + PAGE_SIZE && AllErased(buffer[..])
        invariant forall i :: 0 <= i < mem.Length ==> mem[i] == if i < pageAddress then goal[i] else was[i]
        decreases |buf| - k
      {
        opt, k := WritePage(address, buf, blankCheck, pageAddress, opt, k, was, found, first);
        pageAddress := pageAddress + PAGE_SIZE;
      }
      if |buf| > 0 {
        assert mem[..] == goal;
      }
    }

    /** One round of its loop: the page at base is staged and written. */
    method WritePage(address: nat, buf: seq<Cell>, blankCheck: bool, base: nat, optIn: nat, kIn: nat,
                     ghost was: seq<Cell>, ghost found: seq<Cell>, ghost first: nat)
      returns (opt: nat, k: nat)
      requires Valid() && address + |buf| <= mem.Length == |was| && |found| == PAGE_SIZE
      requires base % PAGE_SIZE == 0 && base + PAGE_SIZE <= mem.Length
      requires kIn == Below(address, |buf|, base) && optIn == address + kIn
      requires if base == first then buffer[..] == found else base >= first + PAGE_SIZE && AllErased(buffer[..])
      requires forall i :: base <= i < base + PAGE_SIZE ==> mem[i] == was[i]
      requires forall i :: base <= i < base + PAGE_SIZE ==>
        Staged(mem[..], address, buf, blankCheck, i) == Staged(was, address, buf, blankCheck, i)
      modifies mem, buffer
      ensures k == Below(address, |buf|, base + PAGE_SIZE) && opt == address + k
      ensures AllErased(buffer[..])
      ensures forall i :: 0 <= i < mem.Length ==>
        mem[i] == if base <= i < base + PAGE_SIZE then WrittenThrough(was, address, buf, blankCheck, found, first)[i]
                  else old(mem[i])
    {
      ghost var head := buffer[..];
      var pageAddress, mustErase;
      pageAddress, opt, k, mustErase := StagePage(mem, address, buf, blankCheck, base, optIn, kIn);
      ghost var staged := buffer[..];
      if mustErase {
        AtomicWriteAppPage(pageAddress - PAGE_SIZE);
      } else {
        SplitWriteAppPage(pageAddress - PAGE_SIZE);
      }
      forall i | base <= i < base + PAGE_SIZE
        ensures mem[i] == WrittenThrough(was, address, buf, blankCheck, found, first)[i]
      {
        CellWritten(was, address, buf, blankCheck, i, head[i - base], staged[i - base]);
        AndErased(Written(was, address, buf, blankCheck)[i]);
      }
    }

    /** nvm_flash_read_buffer. */
    method ReadBuffer(address: nat, len: nat) returns (buf: seq<Cell>)
      requires Valid() && address + len <= mem.Length
      ensures buf == mem[address..address + len]
    {
      var opt := address;
      buf := [];
      while |buf| < len
        invariant |buf| <= len && opt == address + |buf|
        invariant buf == mem[address..address + |buf|]
      {
        buf := buf + [mem[opt]];
        opt := opt + 1;
      }
    }

    /** What is written with the blank check is what is read. */
    method WriteThenRead(address: nat, buf: seq<Cell>) returns (back: seq<Cell>)
      requires Valid() && address + |buf| <= mem.Length && AllErased(buffer[..])
      modifies mem, buffer
      ensures back == buf
    {
      if |buf| == 0 {
        return [];
      }
      ghost var was := mem[..];
      FoundIsHarmlessIff(was, address, buf, true, buffer[..], address - address % PAGE_SIZE);
      EraseAndWriteBuffer(address, buf, true);
      assert mem[..] == Overlay(was, address, buf);
      OverlayReadBack(was, address, buf);
      back := ReadBuffer(address, |buf|);
      assert mem[address..address + |buf|] == mem[..][address..address + |buf|];
    }

    /** Hardware: erase the user signature row. */
    method EraseUserSection()
      requires Valid()
      modifies userRow
      ensures AllErased(userRow[..])
    {
      forall i | 0 <= i < PAGE_SIZE {
        userRow[i] := ERASED;
      }
    }

    /** Hardware: program the user signature row without erasing it. */
    method WriteUserPage()
      requires Valid()
      modifies userRow, buffer
      ensures AllErased(buffer[..])
      ensures forall i :: 0 <= i < PAGE_SIZE ==> userRow[i] == And(old(userRow[i]), old(buffer[i]))
    {
      forall i | 0 <= i < PAGE_SIZE {
        userRow[i] := And(userRow[i], buffer[i]);
      }
      forall i | 0 <= i < PAGE_SIZE {
        buffer[i] := ERASED;
      }
    }

    /** One pass of the word loop of nvm_user_sig_write_buffer, counting only what it takes of the
        bytes that remain. */
    static method CountPass(optIn: nat, lenIn: nat) returns (opt: nat, len: nat)
      ensures (opt, len) == Pass(optIn, lenIn)
    {
      opt, len := optIn, lenIn;
      var pagePos := 0;
      ghost var words := 0;
      while pagePos < PAGE_SIZE
        invariant 0 <= pagePos == 2 * words <= PAGE_SIZE
        invariant len == lenIn - Below(optIn, lenIn, pagePos) && opt == optIn + Below(optIn, lenIn, pagePos)
      {
        if len != 0 && opt == pagePos {
          len, opt := len - 1, opt + 1;
        }
        if len != 0 && opt == pagePos + 1 {
          len, opt := len - 1, opt + 1;
        }
        pagePos := pagePos + 2;
        words := words + 1;
      }
    }

    /** nvm_user_sig_write_buffer, when it ends: the whole row is staged by one pass of the outer loop. */
    method UserSigWriteBuffer(address: nat, buf: seq<Cell>, blankCheck: bool)
      requires Valid() && FitsRow(address, |buf|)
      modifies userRow, buffer
      ensures userRow[..] ==
              WrittenThrough(old(userRow[..]), RowAddress(address, |buf|), buf, blankCheck, old(buffer[..]), 0)
      ensures AllErased(buffer[..])
    {
      ghost var was, found, at := userRow[..], buffer[..], RowAddress(address, |buf|);
      var k, opt, mustErase := 0, address % 0x1_0000, false;
      while k < |buf|
        invariant k == 0 || k == |buf|
        invariant |buf| > 0 ==> opt == at + k
        invariant k == 0 ==> buffer[..] == found && !mustErase
        invariant k != 0 ==>
          && (forall j :: 0 <= j < PAGE_SIZE ==> buffer[j] == And(found[j], Staged(was, at, buf, blankCheck, j)))
          && (mustErase <==> blankCheck && !BlankRange(was, 0, PAGE_SIZE))
        invariant userRow[..] == was
        decreases |buf| - k
      {
        var pageAddress;
        pageAddress, opt, k, mustErase := StagePage(userRow, opt, buf, blankCheck, 0, opt, k);
      }
      ghost var staged := buffer[..];
      if mustErase {
        EraseUserSection();
      }
      WriteUserPage();
      forall i | 0 <= i < PAGE_SIZE
        ensures userRow[i] == WrittenThrough(was, at, buf, blankCheck, found, 0)[i]
      {
        AndErased(staged[i]);
        if |buf| > 0 {
          CellWritten(was, at, buf, blankCheck, i, found[i], staged[i]);
        } else {
          NothingWritten(was, at, buf, blankCheck, i);
          AndSwap(was[i], found[i], ERASED);
          AndErased(found[i]);
          AndErased(was[i]);
        }
      }
      assert userRow[..] == WrittenThrough(was, at, buf, blankCheck, found, 0);
    }

    /** nvm_user_sig_read_buffer: the address is reduced to an offset in the row. */
    method UserSigReadBuffer(address: nat, len: nat) returns (buf: seq<Cell>)
      requires Valid() && address % PAGE_SIZE + len <= PAGE_SIZE
      ensures buf == userRow[address % PAGE_SIZE..address % PAGE_SIZE + len]
    {
      var opt := address % PAGE_SIZE;
      buf := [];
      while |buf| < len
        invariant |buf| <= len && opt == address % PAGE_SIZE + |buf|
        invariant buf == userRow[address % PAGE_SIZE..opt]
      {
        buf := buf + [userRow[opt]];
        opt := opt + 1;
      }
    }

    method UserSigWriteThenRead(address: nat, buf: seq<Cell>) returns (back: seq<Cell>)
      requires Valid() && address < PAGE_SIZE && address + |buf| <= PAGE_SIZE && AllErased(buffer[..])
      modifies userRow, buffer
      ensures back == buf
    {
      if |buf| == 0 {
        return [];
      }
      ghost var was := userRow[..];
      assert RowAddress(address, |buf|) == address;
      FoundIsHarmlessIff(was, address, buf, true, buffer[..], 0);
      UserSigWriteBuffer(address, buf, true);
      assert userRow[..] == Overlay(was, address, buf);
      OverlayReadBack(was, address, buf);
      assert address % PAGE_SIZE == address;
      back := UserSigReadBuffer(address, |buf|);
      assert userRow[address..address + |buf|] == userRow[..][address..address + |buf|];
    }
  }
}
