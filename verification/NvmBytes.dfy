/** Byte sequences as the NVM drivers see them: the overlay a write should produce, the AND
    that a write without an erase produces, and when the two agree. */
module NvmBytes {

  /** A cell of non-volatile memory: one byte. */
  type Cell = bv8

  const ERASED: Cell := 0xFF

  /** Programming a cell can only clear bits. */
  function And(a: Cell, b: Cell): Cell {
    a & b
  }

  /** The memory cells all read as erased. */
  ghost predicate AllErased(s: seq<Cell>) {
    forall i :: 0 <= i < |s| ==> s[i] == ERASED
  }

  /** The memory with the cells at, at+1, ... replaced by buf. */
  function Overlay(mem: seq<Cell>, at: nat, buf: seq<Cell>): (r: seq<Cell>)
    requires at + |buf| <= |mem|
    ensures |r| == |mem|
    ensures forall i :: 0 <= i < |mem| ==> r[i] == if at <= i < at + |buf| then buf[i - at] else mem[i]
  {
    mem[..at] + buf + mem[at + |buf|..]
  }

  /** The memory with buf ANDed into the cells at, at+1, ...: programming can only clear bits. */
  function AndOverlay(mem: seq<Cell>, at: nat, buf: seq<Cell>): (r: seq<Cell>)
    requires at + |buf| <= |mem|
    ensures |r| == |mem|
    ensures forall i :: 0 <= i < |mem| ==> r[i] == if at <= i < at + |buf| then And(mem[i], buf[i - at]) else mem[i]
  {
    seq(|mem|, i requires 0 <= i < |mem| => if at <= i < at + |buf| then And(mem[i], buf[i - at]) else mem[i])
  }

  /** Of the values that have no bit outside both, it is the one with most bits. */
  lemma AndIsMeet(a: Cell, b: Cell, c: Cell)
    ensures And(a, b) | a == a && And(a, b) | b == b
    ensures c | a == a && c | b == b ==> c | And(a, b) == And(a, b)
  {}

  lemma AndErased(b: Cell)
    ensures And(b, ERASED) == b && And(ERASED, b) == b
  {}

  /** Writing without an erase gives the overlay exactly when no bit of buf must go from 0 to 1. */
  lemma AndOverlayIsOverlayIff(mem: seq<Cell>, at: nat, buf: seq<Cell>)
    requires at + |buf| <= |mem|
    ensures AndOverlay(mem, at, buf) == Overlay(mem, at, buf)
       <==> forall k :: 0 <= k < |buf| ==> And(mem[at + k], buf[k]) == buf[k]
  {
    var a, o := AndOverlay(mem, at, buf), Overlay(mem, at, buf);
    if a == o {
      forall k | 0 <= k < |buf| ensures And(mem[at + k], buf[k]) == buf[k] {
        assert a[at + k] == o[at + k];
      }
    }
    if forall k :: 0 <= k < |buf| ==> And(mem[at + k], buf[k]) == buf[k] {
      forall i | 0 <= i < |mem| ensures a[i] == o[i] {
        if at <= i < at + |buf| {
          assert And(mem[at + (i - at)], buf[i - at]) == buf[i - at];
        }
      }
    }
  }

  /** Reading an overlay back returns the bytes written. */
  lemma OverlayReadBack(mem: seq<Cell>, at: nat, buf: seq<Cell>)
    requires at + |buf| <= |mem|
    ensures Overlay(mem, at, buf)[at..at + |buf|] == buf
  {
  }
}
