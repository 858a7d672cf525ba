/**
 `eeprom_read` and `eeprom_write` over I2C chips whose address counter wraps inside a write page
 (for reads: inside a 256-byte block), against a flat array of bytes.
 */
module Eeprom {
  import opened Bytes
  import opened Bits

  const I2C_RXTX_LEN := 128

  /** A byte of some chip: the 7-bit bus address and the word address in the chip. */
  datatype Cell = Cell(chip: nat, word: nat)

  /**
   A wiring: one or two address bytes per chip; the chips answer at the `2^select` bus addresses from
   `base * 2^select` on; write pages of `2^pageBits` bytes.
   */
  datatype Wiring = Wiring(addrLen: nat, base: nat, select: nat, pageBits: nat)
  {
    ghost predicate Valid()
    {
      && (addrLen == 1 || addrLen == 2) && pageBits <= 8
      && select <= 8 && (base + 1) * Pow2(select) <= 256
    }

    function DevAddr(): nat { base * Pow2(select) }

    function ChipSize(): nat { if addrLen == 1 then 0x100 else 0x10000 }

    /** The chip select that the code computes: an 8-bit block number ORed into the device address. */
    function ChipSelect(offset: nat): nat { Or(DevAddr(), offset / ChipSize() % 256) }

    /** The flat address space. */
    ghost predicate InRange(offset: nat) { offset < Pow2(select) * ChipSize() }

    function CellAt(offset: nat): Cell { Cell(ChipSelect(offset), offset % ChipSize()) }
  }

  lemma SelectedChip(w: Wiring, offset: nat)
    requires w.Valid() && w.InRange(offset)
    ensures w.CellAt(offset) == Cell(w.DevAddr() + offset / w.ChipSize(), offset % w.ChipSize())
  {
    var n, p := offset / w.ChipSize(), Pow2(w.select);
    if w.addrLen == 1 {
      assert n == offset / 0x100 && offset < p * 0x100;
    } else {
      assert n == offset / 0x10000 && offset < p * 0x10000;
    }
    assert n < p;
    assert p <= 256 by { MulStep(p, 0, w.base + 1); }
    SmallMod(n, 256);
    OrDisjoint(w.base, n, w.select);
  }

  /** Different offsets are different cells. */
  lemma CellsDistinct(w: Wiring, o: nat, o': nat)
    requires w.Valid() && w.InRange(o) && w.InRange(o') && w.CellAt(o) == w.CellAt(o')
    ensures o == o'
  {
    SelectedChip(w, o);
    SelectedChip(w, o');
  }

  // ----- transfers -----

  function PageSize(pageBits: nat): nat { Pow2(pageBits) }

  datatype Mode = Write(pageBits: nat) | Read

  /** The unit a transfer must not leave. */
  function Unit(m: Mode): (size: nat)
    ensures size > 0
  {
    match m
    case Write(pageBits) => PageSize(pageBits)
    case Read => 0x100
  }

  /** The longest transfer the code allows at an offset; the place in the unit is taken from the low byte. */
  function MaxLen(m: Mode, offset: nat): (len: nat)
    ensures len > 0
  {
    var room := Unit(m) - offset % 256 % Unit(m);
    if room > I2C_RXTX_LEN then I2C_RXTX_LEN else room
  }

  datatype Transfer = Transfer(offset: nat, len: nat)

  function NextTransfer(m: Mode, offset: nat, end: nat): Transfer
    requires offset < end
  {
    Transfer(offset, if end - offset > MaxLen(m, offset) then MaxLen(m, offset) else end - offset)
  }

  /** The transfers that cover [offset, end), each as long as allowed. */
  function Plan(m: Mode, offset: nat, end: nat): seq<Transfer>
    decreases end - offset
  {
    if offset >= end then []
    else
      var t := NextTransfer(m, offset, end);
      [t] + Plan(m, offset + t.len, end)
  }

  lemma PlanUnfold(m: Mode, offset: nat, end: nat)
    requires offset < end
    ensures var t := NextTransfer(m, offset, end); Plan(m, offset, end) == [t] + Plan(m, offset + t.len, end)
  {
  }

  /** A transfer made as planned leaves the rest of the plan. */
  lemma PlanStep(log: seq<Transfer>, log': seq<Transfer>, m: Mode, offset: nat, end: nat, len: nat)
    requires offset < end && Transfer(offset, len) == NextTransfer(m, offset, end) && log' == log + [Transfer(offset, len)]
    ensures log' + Plan(m, offset + len, end) == log + Plan(m, offset, end)
  {
    PlanUnfold(m, offset, end);
    MoveOver(log, Transfer(offset, len), Plan(m, offset + len, end));
  }

  predicate WithinPage(t: Transfer, size: nat)
    requires size > 0
  {
    t.len > 0 && t.offset % size + t.len <= size
  }

  /** Consecutive, starting at `offset`, ending at `end`. */
  predicate Tiles(ts: seq<Transfer>, offset: nat, end: nat)
  {
    if ts == [] then offset >= end
    else ts[0].offset == offset && ts[0].len > 0 && offset + ts[0].len <= end && Tiles(ts[1..], offset + ts[0].len, end)
  }

  lemma {:induction false} PlanTiles(m: Mode, offset: nat, end: nat)
    ensures Tiles(Plan(m, offset, end), offset, end)
    decreases end - offset
  {
    if offset < end {
      var t := NextTransfer(m, offset, end);
      PlanTiles(m, offset + t.len, end);
      assert Plan(m, offset, end)[1..] == Plan(m, offset + t.len, end);
    }
  }

  /** A write page of at most 2^8 bytes divides a block, and so a chip. */
  lemma PageDivides(pageBits: nat)
    requires pageBits <= 8
    ensures PageSize(pageBits) * Pow2(8 - pageBits) == 0x100
  {
    PowSum(pageBits, 8 - pageBits);
    assert Pow2(8) == 2 * 2 * 2 * 2 * 2 * 2 * 2 * 2 * Pow2(0) by {
      assert Pow2(1) == 2 && Pow2(2) == 4 && Pow2(3) == 8 && Pow2(4) == 16 && Pow2(5) == 32 && Pow2(6) == 64;
      assert Pow2(7) == 128;
    }
  }

  lemma {:induction false} PowSum(a: nat, b: nat)
    ensures Pow2(a) * Pow2(b) == Pow2(a + b)
    decreases a
  {
    if a > 0 {
      PowSum(a - 1, b);
    }
  }

  predicate SmallUnit(m: Mode) { m.Read? || m.pageBits <= 8 }

  lemma UnitDivides(m: Mode)
    requires SmallUnit(m)
    ensures exists k: nat :: k > 0 && Unit(m) * k == 0x100
  {
    if m.Write? {
      PageDivides(m.pageBits);
      assert Unit(m) * Pow2(8 - m.pageBits) == 0x100;
    } else {
      assert Unit(m) * 1 == 0x100;
    }
  }

  lemma TransferWithinUnit(m: Mode, offset: nat, end: nat)
    requires SmallUnit(m) && offset < end
    ensures WithinPage(NextTransfer(m, offset, end), Unit(m))
  {
    UnitDivides(m);
    var k: nat :| k > 0 && Unit(m) * k == 0x100;
    ModMultiple(offset, Unit(m), k);
  }

  lemma {:induction false} PlanWithinUnit(m: Mode, offset: nat, end: nat)
    requires SmallUnit(m)
    ensures AllWithin(m, offset, end)
    decreases end - offset
  {
    if offset < end {
      TransferWithinUnit(m, offset, end);
      PlanWithinUnit(m, offset + NextTransfer(m, offset, end).len, end);
    }
  }

  ghost predicate AllWithin(m: Mode, offset: nat, end: nat)
  {
    forall t | t in Plan(m, offset, end) :: WithinPage(t, Unit(m))
  }

  /** It cannot be made longer: it reaches the end of the range or of its unit, or has the driver's 128 bytes. */
  predicate FullLength(t: Transfer, size: nat, end: nat)
    requires size > 0
  {
    t.offset + t.len == end || t.offset % size + t.len == size || t.len == 128
  }

  lemma TransferFull(m: Mode, offset: nat, end: nat)
    requires SmallUnit(m) && offset < end
    ensures FullLength(NextTransfer(m, offset, end), Unit(m), end)
  {
    UnitDivides(m);
    var k: nat :| k > 0 && Unit(m) * k == 0x100;
    ModMultiple(offset, Unit(m), k);
  }

  /** No transfer could be longer. */
  lemma {:induction false} PlanFull(m: Mode, offset: nat, end: nat)
    requires SmallUnit(m)
    ensures forall t | t in Plan(m, offset, end) :: FullLength(t, Unit(m), end)
    decreases end - offset
  {
    if offset < end {
      TransferFull(m, offset, end);
      PlanFull(m, offset + NextTransfer(m, offset, end).len, end);
    }
  }

  /** No write transfer crosses a page, whatever is written where, exactly when pages have at most 2^8 bytes. */
  lemma PageBitsLimit(pageBits: nat)
    ensures (forall offset: nat, end: nat :: AllWithin(Write(pageBits), offset, end)) <==> pageBits <= 8
  {
    if pageBits <= 8 {
      forall offset: nat, end: nat ensures AllWithin(Write(pageBits), offset, end) {
        PlanWithinUnit(Write(pageBits), offset, end);
      }
    } else {
      LargePageCrossed(pageBits);
    }
  }

  /** With larger pages, two bytes across a page boundary go out in one transfer. */
  lemma LargePageCrossed(pageBits: nat)
    requires pageBits > 8
    ensures var last := PageSize(pageBits) - 1;
            && Plan(Write(pageBits), last, last + 2) == [Transfer(last, 2)]
            && !AllWithin(Write(pageBits), last, last + 2)
  {
    var size, k := PageSize(pageBits), Pow2(pageBits - 8);
    PowSum(8, pageBits - 8);
    PageDivides(8);
    assert k == 2 * Pow2(pageBits - 9) && size == 256 * k;
    DivModUnique(size - 1, 256, k - 1, 255);
    SmallMod(255, size);
    SmallMod(size - 1, size);
    var m, t := Write(pageBits), Transfer(size - 1, 2);
    assert MaxLen(m, size - 1) == I2C_RXTX_LEN;
    assert NextTransfer(m, size - 1, size + 1) == t;
    assert t in Plan(m, size - 1, size + 1);
    assert !WithinPage(t, Unit(m));
  }

  // ----- chips -----

  function Lookup(cells: map<Cell, byte>, c: Cell): byte { if c in cells then cells[c] else 0xFF }

  /** The word reached `k` steps after `word` by a counter that wraps inside a unit of `size`. */
  function Wrapped(word: nat, k: nat, size: nat): nat
    requires size > 0
  {
    word - word % size + (word % size + k) % size
  }

  function ChipWrite(cells: map<Cell, byte>, chip: nat, word: nat, data: seq<byte>, size: nat): map<Cell, byte>
    requires size > 0
  {
    if data == [] then cells
    else
      var k := |data| - 1;
      ChipWrite(cells, chip, word, data[..k], size)[Cell(chip, Wrapped(word, k, size)) := data[k]]
  }

  function ChipRead(cells: map<Cell, byte>, chip: nat, word: nat, len: nat, size: nat): (data: seq<byte>)
    requires size > 0
    ensures |data| == len
  {
    if len == 0 then [] else ChipRead(cells, chip, word, len - 1, size) + [Lookup(cells, Cell(chip, Wrapped(word, len - 1, size)))]
  }

  // ----- the flat array -----

  function FlatWrite(w: Wiring, cells: map<Cell, byte>, offset: nat, data: seq<byte>): map<Cell, byte>
  {
    if data == [] then cells
    else FlatWrite(w, cells, offset, data[..|data| - 1])[w.CellAt(offset + |data| - 1) := data[|data| - 1]]
  }

  function FlatRead(w: Wiring, cells: map<Cell, byte>, offset: nat, len: nat): (data: seq<byte>)
    ensures |data| == len
  {
    if len == 0 then [] else FlatRead(w, cells, offset, len - 1) + [Lookup(cells, w.CellAt(offset + len - 1))]
  }

  lemma {:induction false} FlatWriteAppend(w: Wiring, cells: map<Cell, byte>, offset: nat, a: seq<byte>, b: seq<byte>)
    ensures FlatWrite(w, cells, offset, a + b) == FlatWrite(w, FlatWrite(w, cells, offset, a), offset + |a|, b)
    decreases |b|
  {
    if b == [] {
      assert a + b == a;
    } else {
      assert (a + b)[..|a + b| - 1] == a + b[..|b| - 1];
      FlatWriteAppend(w, cells, offset, a, b[..|b| - 1]);
    }
  }

  lemma FlatWriteNext(w: Wiring, cells: map<Cell, byte>, offset: nat, data: seq<byte>, at: nat, len: nat)
    requires at + len <= |data|
    ensures FlatWrite(w, FlatWrite(w, cells, offset, data[..at]), offset + at, data[at..at + len]) ==
            FlatWrite(w, cells, offset, data[..at + len])
  {
    FlatWriteAppend(w, cells, offset, data[..at], data[at..at + len]);
    assert data[..at] + data[at..at + len] == data[..at + len];
  }

  lemma {:induction false} FlatReadAppend(w: Wiring, cells: map<Cell, byte>, offset: nat, m: nat, n: nat)
    ensures FlatRead(w, cells, offset, m + n) == FlatRead(w, cells, offset, m) + FlatRead(w, cells, offset + m, n)
    decreases n
  {
    if n > 0 {
      FlatReadAppend(w, cells, offset, m, n - 1);
    }
  }

  /** A write changes exactly the bytes of its range. */
  lemma {:induction false} FlatWriteAt(w: Wiring, cells: map<Cell, byte>, offset: nat, data: seq<byte>, o: nat)
    requires w.Valid() && w.InRange(o) && (data == [] || w.InRange(offset + |data| - 1))
    ensures Lookup(FlatWrite(w, cells, offset, data), w.CellAt(o)) ==
            if offset <= o < offset + |data| then data[o - offset] else Lookup(cells, w.CellAt(o))
    decreases |data|
  {
    if data != [] {
      FlatWriteAt(w, cells, offset, data[..|data| - 1], o);
      if w.CellAt(o) == w.CellAt(offset + |data| - 1) {
        CellsDistinct(w, o, offset + |data| - 1);
      }
    }
  }

  /** Reading back what was written. */
  lemma {:induction false} FlatReadWritten(w: Wiring, cells: map<Cell, byte>, offset: nat, data: seq<byte>, n: nat)
    requires w.Valid() && (data == [] || w.InRange(offset + |data| - 1)) && n <= |data|
    ensures FlatRead(w, FlatWrite(w, cells, offset, data), offset, n) == data[..n]
    decreases n
  {
    if n > 0 {
      FlatReadWritten(w, cells, offset, data, n - 1);
      FlatWriteAt(w, cells, offset, data, offset + n - 1);
      assert data[..n] == data[..n - 1] + [data[n - 1]];
    }
  }

  lemma Scaled(size: nat, j: nat)
    ensures size * (256 * j) == 256 * (size * j)
  {
  }

  /** Inside one unit the chip's counter does not wrap and the chip does not change. */
  lemma CellsInUnit(w: Wiring, m: Mode, offset: nat, k: nat)
    requires w.Valid() && SmallUnit(m) && offset % Unit(m) + k < Unit(m)
    ensures w.CellAt(offset + k) == Cell(w.ChipSelect(offset), Wrapped(offset % w.ChipSize(), k, Unit(m)))
  {
    var size := Unit(m);
    UnitDivides(m);
    var j: nat :| j > 0 && size * j == 0x100;
    var i := if w.addrLen == 1 then j else 256 * j;
    Scaled(size, j);
    StepInUnit(offset, size, i, k);
    SmallMod(offset % size + k, size);
  }

  lemma {:induction false} ChipWriteIsFlat(w: Wiring, m: Mode, cells: map<Cell, byte>, offset: nat, data: seq<byte>)
    requires w.Valid() && SmallUnit(m) && offset % Unit(m) + |data| <= Unit(m)
    ensures ChipWrite(cells, w.ChipSelect(offset), offset % w.ChipSize(), data, Unit(m)) ==
            FlatWrite(w, cells, offset, data)
    decreases |data|
  {
    if data != [] {
      ChipWriteIsFlat(w, m, cells, offset, data[..|data| - 1]);
      CellsInUnit(w, m, offset, |data| - 1);
    }
  }

  lemma {:induction false} ChipReadIsFlat(w: Wiring, m: Mode, cells: map<Cell, byte>, offset: nat, len: nat)
    requires w.Valid() && SmallUnit(m) && offset % Unit(m) + len <= Unit(m)
    ensures ChipRead(cells, w.ChipSelect(offset), offset % w.ChipSize(), len, Unit(m)) == FlatRead(w, cells, offset, len)
    decreases len
  {
    if len > 0 {
      ChipReadIsFlat(w, m, cells, offset, len - 1);
      CellsInUnit(w, m, offset, len - 1);
    }
  }

  ghost predicate Touched(w: Wiring, c: Cell, offset: nat, end: nat)
  {
    exists o: nat :: offset <= o < end && w.CellAt(o) == c
  }

  /** Two states of the chips differ at most in the cells of [offset, end). */
  ghost predicate SameOutside(w: Wiring, a: map<Cell, byte>, b: map<Cell, byte>, offset: nat, end: nat)
  {
    forall c :: Lookup(a, c) != Lookup(b, c) ==> Touched(w, c, offset, end)
  }

  lemma {:induction false} FlatWriteSameOutside(w: Wiring, cells: map<Cell, byte>, offset: nat, data: seq<byte>)
    ensures SameOutside(w, cells, FlatWrite(w, cells, offset, data), offset, offset + |data|)
    decreases |data|
  {
    if data != [] {
      var k := |data| - 1;
      FlatWriteSameOutside(w, cells, offset, data[..k]);
      var cells' := FlatWrite(w, cells, offset, data);
      forall c | Lookup(cells, c) != Lookup(cells', c) ensures Touched(w, c, offset, offset + |data|) {
        if c == w.CellAt(offset + k) {
        } else {
          assert Touched(w, c, offset, offset + k);
        }
      }
    }
  }

  lemma SameOutsideTrans(w: Wiring, a: map<Cell, byte>, b: map<Cell, byte>, c: map<Cell, byte>, o: nat, m: nat, e: nat)
    requires o <= m <= e && SameOutside(w, a, b, o, m) && SameOutside(w, b, c, m, e)
    ensures SameOutside(w, a, c, o, e)
  {
    forall x | Lookup(a, x) != Lookup(c, x) ensures Touched(w, x, o, e) {
      if Lookup(a, x) != Lookup(b, x) {
        assert Touched(w, x, o, m);
      } else {
        assert Touched(w, x, m, e);
      }
    }
  }

  // ----- the driver -----

  /** A transfer is acknowledged, or breaks off after some bytes. */
  datatype Fault = Works | BreaksAfter(bytes: nat)

  /** One more transfer on top of what was written before. */
  lemma WriteExtends(w: Wiring, start: map<Cell, byte>, before: map<Cell, byte>, after: map<Cell, byte>,
                     offset: nat, data: seq<byte>, at: nat, len: nat, clean: bool, failed: bool)
    requires at + len <= |data|
    requires SameOutside(w, start, before, offset, offset + at)
    requires SameOutside(w, before, after, offset + at, offset + at + len)
    requires clean ==> before == FlatWrite(w, start, offset, data[..at])
    requires !failed ==> after == FlatWrite(w, before, offset + at, data[at..at + len])
    ensures SameOutside(w, start, after, offset, offset + at + len)
    ensures clean && !failed ==> after == FlatWrite(w, start, offset, data[..at + len])
  {
    SameOutsideTrans(w, start, before, after, offset, offset + at, offset + at + len);
    FlatWriteNext(w, start, offset, data, at, len);
  }

  /** Part of a write is done: the log holds its transfers, and the cells hold its bytes unless one failed. */
  ghost predicate WriteDone(w: Wiring, start: map<Cell, byte>, cells: map<Cell, byte>, offset: nat, data: seq<byte>, at: nat,
                            clean: bool)
    requires at <= |data|
  {
    SameOutside(w, start, cells, offset, offset + at) && (clean ==> cells == FlatWrite(w, start, offset, data[..at]))
  }

  lemma NothingWritten(w: Wiring, cells: map<Cell, byte>, offset: nat, data: seq<byte>)
    ensures WriteDone(w, cells, cells, offset, data, 0, true)
  {
    FlatWriteSameOutside(w, cells, offset, data[..0]);
  }

  /** The loop of `eeprom_write` has come to `at`, and the rest of its plan is still to be done. */
  ghost predicate WriteAt(w: Wiring, start: map<Cell, byte>, cells: map<Cell, byte>, planned: seq<Transfer>,
                          log: seq<Transfer>, offset: nat, data: seq<byte>, at: nat, clean: bool)
    requires at <= |data|
  {
    && log + Plan(Mode.Write(w.pageBits), offset + at, offset + |data|) == planned
    && WriteDone(w, start, cells, offset, data, at, clean)
  }

  /** The planned transfers have been made; nothing outside the range has changed, and without error it holds the data. */
  ghost predicate Written(w: Wiring, start: map<Cell, byte>, cells: map<Cell, byte>, log0: seq<Transfer>,
                          log: seq<Transfer>, offset: nat, data: seq<byte>, clean: bool)
  {
    && log == log0 + Plan(Mode.Write(w.pageBits), offset, offset + |data|)
    && SameOutside(w, start, cells, offset, offset + |data|)
    && (clean ==> cells == FlatWrite(w, start, offset, data))
  }

  lemma AllWritten(w: Wiring, start: map<Cell, byte>, cells: map<Cell, byte>, log0: seq<Transfer>,
                   planned: seq<Transfer>, log: seq<Transfer>, offset: nat, data: seq<byte>, clean: bool)
    requires planned == log0 + Plan(Mode.Write(w.pageBits), offset, offset + |data|)
    requires WriteAt(w, start, cells, planned, log, offset, data, |data|, clean)
    ensures Written(w, start, cells, log0, log, offset, data, clean)
  {
    assert data[..|data|] == data;
    assert log + [] == log;
  }

  lemma NoWrite(w: Wiring, cells: map<Cell, byte>, log: seq<Transfer>, offset: nat, data: seq<byte>)
    requires data == []
    ensures Written(w, cells, cells, log, log, offset, data, true)
  {
    FlatWriteSameOutside(w, cells, offset, data);
  }

  /** The loop of `eeprom_read` has come to `at`, and the rest of its plan is still to be done. */
  ghost predicate ReadAt(w: Wiring, cells: map<Cell, byte>, planned: seq<Transfer>, log: seq<Transfer>, offset: nat,
                         data: seq<byte>, at: nat, clean: bool)
    requires at <= |data|
  {
    && log + Plan(Mode.Read, offset + at, offset + |data|) == planned
    && (clean ==> data[..at] == FlatRead(w, cells, offset, at))
  }

  lemma ReadExtends(w: Wiring, cells: map<Cell, byte>, before: seq<byte>, after: seq<byte>, offset: nat, at: nat, len: nat,
                    clean: bool, failed: bool)
    requires at + len <= |before| == |after| && after[..at] == before[..at]
    requires clean ==> before[..at] == FlatRead(w, cells, offset, at)
    requires !failed ==> after[at..at + len] == FlatRead(w, cells, offset + at, len)
    ensures clean && !failed ==> after[..at + len] == FlatRead(w, cells, offset, at + len)
  {
    FlatReadAppend(w, cells, offset, at, len);
    assert after[..at + len] == after[..at] + after[at..at + len];
  }

  lemma AllRead(w: Wiring, cells: map<Cell, byte>, planned: seq<Transfer>, log: seq<Transfer>, offset: nat,
                data: seq<byte>, clean: bool)
    requires ReadAt(w, cells, planned, log, offset, data, |data|, clean)
    ensures log == planned && (clean ==> data == FlatRead(w, cells, offset, |data|))
  {
    assert data[..|data|] == data;
    assert log + [] == log;
  }

  /** A range that does not pass the end of the 32-bit offsets, and is not empty, is entered. */
  lemma LoopEntered(offset: nat, n: nat)
    requires offset < WORD && n < WORD
    ensures offset < (offset + n) % WORD <==> offset + n < WORD && n > 0
  {
  }

  /** The transfers from the `lo`-th to before the `hi`-th work. */
  ghost predicate AllWork(fault: nat -> Fault, lo: nat, hi: nat) { forall k | lo <= k < hi :: fault(k).Works? }

  /** The return code after the transfers from the `lo`-th to before the `hi`-th. */
  ghost predicate Tally(fault: nat -> Fault, lo: nat, hi: nat, rcode: int)
  {
    lo <= hi && rcode == if AllWork(fault, lo, hi) then 0 else 1
  }

  lemma TallyNone(fault: nat -> Fault, lo: nat)
    ensures Tally(fault, lo, lo, 0)
  {
  }

  lemma TallyStep(fault: nat -> Fault, lo: nat, hi: nat, rcode: int, failed: bool)
    requires Tally(fault, lo, hi, rcode) && failed == !fault(hi).Works?
    ensures Tally(fault, lo, hi + 1, if failed then 1 else rcode)
  {
  }

  class Bus {
    const wiring: Wiring
    const fault: nat -> Fault      // what happens to the n-th transfer
    var cells: map<Cell, byte>
    var count: nat
    ghost var log: seq<Transfer>

    ghost predicate Valid()
      reads this
    {
      wiring.Valid() && |log| == count
    }

    constructor (wiring: Wiring, fault: nat -> Fault, cells: map<Cell, byte>)
      ensures this.wiring == wiring && this.cells == cells && log == [] && count == 0
    {
      this.wiring, this.fault, this.cells := wiring, fault, cells;
      count, log := 0, [];
    }

    /** `i2c_write` to a chip that wraps inside its write page. A broken transfer has written a prefix. */
    method I2cWrite(chip: nat, offset: nat, data: seq<byte>) returns (failed: bool)
      modifies `cells, `count, `log
      ensures log == old(log) + [Transfer(offset, |data|)]
      ensures count == old(count) + 1 && failed == !fault(old(count)).Works?
      ensures exists k: nat :: k <= |data| && (!failed ==> k == |data|) &&
                cells == ChipWrite(old(cells), chip, offset % wiring.ChipSize(), data[..k], PageSize(wiring.pageBits))
    {
      var f, k := fault(count), |data|;
      failed := false;
      if f.BreaksAfter? {
        failed := true;
        k := if f.bytes < |data| then f.bytes else |data|;
      }
      cells := ChipWrite(cells, chip, offset % wiring.ChipSize(), data[..k], PageSize(wiring.pageBits));
      count := count + 1;
      log := log + [Transfer(offset, |data|)];
    }

    /** `i2c_read` from a chip that wraps inside a 256-byte block. A broken transfer delivers nothing. */
    method I2cRead(chip: nat, offset: nat, buffer: array<byte>, at: nat, len: nat) returns (failed: bool)
      requires at + len <= buffer.Length
      modifies `count, `log, buffer
      ensures log == old(log) + [Transfer(offset, len)]
      ensures count == old(count) + 1 && failed == !fault(old(count)).Works?
      ensures failed ==> buffer[..] == old(buffer[..])
      ensures !failed ==>
                buffer[..] == old(buffer[..at]) + ChipRead(cells, chip, offset % wiring.ChipSize(), len, 0x100) +
                              old(buffer[at + len..])
    {
      var data := ChipRead(cells, chip, offset % wiring.ChipSize(), len, 0x100);
      failed := fault(count).BreaksAfter?;
      if !failed {
        forall i | 0 <= i < len {
          buffer[at + i] := data[i];
        }
      }
      count := count + 1;
      log := log + [Transfer(offset, len)];
    }

    /** One transfer inside a page, seen on the flat array. */
    method WriteTransfer(offset: nat, data: seq<byte>) returns (failed: bool)
      requires Valid() && offset % PageSize(wiring.pageBits) + |data| <= PageSize(wiring.pageBits)
      modifies `cells, `count, `log
      ensures Valid()
      ensures log == old(log) + [Transfer(offset, |data|)]
      ensures count == old(count) + 1 && failed == !fault(old(count)).Works?
      ensures SameOutside(wiring, old(cells), cells, offset, offset + |data|)
      ensures !failed ==> cells == FlatWrite(wiring, old(cells), offset, data)
    {
      failed := I2cWrite(wiring.ChipSelect(offset), offset, data);
      ghost var k: nat :| k <= |data| && (!failed ==> k == |data|) &&
        cells == ChipWrite(old(cells), wiring.ChipSelect(offset), offset % wiring.ChipSize(), data[..k],
                           PageSize(wiring.pageBits));
      ChipWriteIsFlat(wiring, Mode.Write(wiring.pageBits), old(cells), offset, data[..k]);
      FlatWriteSameOutside(wiring, old(cells), offset, data[..k]);
      assert data[..|data|] == data;
      forall c | Lookup(old(cells), c) != Lookup(cells, c) ensures Touched(wiring, c, offset, offset + |data|) {
        assert Touched(wiring, c, offset, offset + k);
      }
    }

    /** The length of the next transfer: up to the end of the unit, of the driver's buffer, of the request. */
    method TransferLength(mode: Mode, offset: nat, end: nat) returns (len: nat)
      requires SmallUnit(mode) && offset < end
      ensures Transfer(offset, len) == NextTransfer(mode, offset, end)
      ensures offset % Unit(mode) + len <= Unit(mode) && 0 < len <= end - offset
    {
      var blkOff := offset % 256;
      len := end - offset;
      var maxlen := Unit(mode) - blkOff % Unit(mode);
      if maxlen > I2C_RXTX_LEN {
        maxlen := I2C_RXTX_LEN;
      }
      if len > maxlen {
        len := maxlen;
      }
      TransferWithinUnit(mode, offset, end);
    }

    /** One turn of the loop of `eeprom_write`. */
    method WriteStep(offset0: nat, buffer: seq<byte>, at: nat, rcode0: int, ghost start: map<Cell, byte>,
                     ghost planned: seq<Transfer>, ghost c0: nat)
      returns (len: nat, rcode: int)
      requires Valid() && at < |buffer| && Tally(fault, c0, count, rcode0)
      requires WriteAt(wiring, start, cells, planned, log, offset0, buffer, at, rcode0 == 0)
      modifies `cells, `count, `log
      ensures Valid() && 0 < len <= |buffer| - at && Tally(fault, c0, count, rcode)
      ensures WriteAt(wiring, start, cells, planned, log, offset0, buffer, at + len, rcode == 0)
    {
      rcode := rcode0;
      var offset := offset0 + at;
      len := TransferLength(Mode.Write(wiring.pageBits), offset, offset0 + |buffer|);
      var part := buffer[at..at + len];
      assert |part| == len;
      TallyStep(fault, c0, count, rcode0, !fault(count).Works?);
      var failed := WriteTransfer(offset, part);
      PlanStep(old(log), log, Mode.Write(wiring.pageBits), offset, offset0 + |buffer|, len);
      if failed {
        rcode := 1;
      }
      WriteExtends(wiring, start, old(cells), cells, offset0, buffer, at, len, rcode0 == 0, failed);
    }

    /** The loop of `eeprom_write`, entered when the end does not wrap. */
    method WriteLoop(offset0: nat, buffer: seq<byte>) returns (rcode: int)
      requires Valid()
      modifies `cells, `count, `log
      ensures Valid() && Tally(fault, old(count), count, rcode)
      ensures Written(wiring, old(cells), cells, old(log), log, offset0, buffer, rcode == 0)
    {
      var offset, end, at: nat := offset0, offset0 + |buffer|, 0;
      rcode := 0;
      ghost var planned := log + Plan(Mode.Write(wiring.pageBits), offset0, end);
      ghost var start, c0 := cells, count;
      NothingWritten(wiring, cells, offset0, buffer);
      TallyNone(fault, c0);
      while offset < end
        invariant Valid() && at <= |buffer| && offset == offset0 + at && Tally(fault, c0, count, rcode)
        invariant WriteAt(wiring, start, cells, planned, log, offset0, buffer, at, rcode == 0)
      {
        var len;
        len, rcode := WriteStep(offset0, buffer, at, rcode, start, planned, c0);
        at := at + len;
        offset := offset + len;
      }
      AllWritten(wiring, start, cells, old(log), planned, log, offset0, buffer, rcode == 0);
    }

    /** `eeprom_write` of the whole buffer to `offset0`. */
    method Write(offset0: nat, buffer: seq<byte>) returns (rcode: int)
      requires Valid() && offset0 < WORD && |buffer| < WORD
      modifies `cells, `count, `log
      ensures Valid()
      ensures Tally(fault, old(count), count, rcode)
      ensures offset0 + |buffer| < WORD ==>
                Written(wiring, old(cells), cells, old(log), log, offset0, buffer, rcode == 0)
      ensures offset0 + |buffer| >= WORD ==> rcode == 0 && cells == old(cells) && log == old(log)
    {
      var end := (offset0 + |buffer|) % WORD;
      LoopEntered(offset0, |buffer|);
      TallyNone(fault, count);
      rcode := 0;
      if offset0 < end {
        rcode := WriteLoop(offset0, buffer);
      } else if buffer == [] {
        NoWrite(wiring, cells, log, offset0, buffer);
      }
    }

    /** One transfer inside a block, seen on the flat array. */
    method ReadTransfer(offset: nat, buffer: array<byte>, at: nat, len: nat) returns (failed: bool)
      requires Valid() && offset % 0x100 + len <= 0x100 && at + len <= buffer.Length
      modifies `count, `log, buffer
      ensures Valid()
      ensures log == old(log) + [Transfer(offset, len)]
      ensures count == old(count) + 1 && failed == !fault(old(count)).Works?
      ensures buffer[..at] == old(buffer[..at]) && buffer[at + len..] == old(buffer[at + len..])
      ensures !failed ==> buffer[at..at + len] == FlatRead(wiring, cells, offset, len)
    {
      failed := I2cRead(wiring.ChipSelect(offset), offset, buffer, at, len);
      ChipReadIsFlat(wiring, Mode.Read, cells, offset, len);
      if failed {
        assert buffer[..at] == buffer[..][..at] && buffer[at + len..] == buffer[..][at + len..];
      } else {
        assert buffer[..at] == buffer[..][..at] && buffer[at..at + len] == buffer[..][at..at + len];
        assert buffer[at + len..] == buffer[..][at + len..];
      }
    }

    /** One turn of the loop of `eeprom_read`. */
    method ReadStep(offset0: nat, buffer: array<byte>, at: nat, rcode0: int, ghost planned: seq<Transfer>, ghost c0: nat)
      returns (len: nat, rcode: int)
      requires Valid() && at < buffer.Length && Tally(fault, c0, count, rcode0)
      requires ReadAt(wiring, cells, planned, log, offset0, buffer[..], at, rcode0 == 0)
      modifies `count, `log, buffer
      ensures Valid() && 0 < len <= buffer.Length - at && Tally(fault, c0, count, rcode)
      ensures ReadAt(wiring, cells, planned, log, offset0, buffer[..], at + len, rcode == 0)
    {
      rcode := rcode0;
      var offset := offset0 + at;
      len := TransferLength(Mode.Read, offset, offset0 + buffer.Length);
      ghost var before := buffer[..];
      TallyStep(fault, c0, count, rcode0, !fault(count).Works?);
      var failed := ReadTransfer(offset, buffer, at, len);
      PlanStep(old(log), log, Mode.Read, offset, offset0 + buffer.Length, len);
      if failed {
        rcode := 1;
      }
      assert buffer[..at] == buffer[..][..at] && before[..at] == old(buffer[..at]);
      assert buffer[at..at + len] == buffer[..][at..at + len];
      ReadExtends(wiring, cells, before, buffer[..], offset0, at, len, rcode0 == 0, failed);
    }

    /** The loop of `eeprom_read`, entered when the end does not wrap. */
    method ReadLoop(offset0: nat, buffer: array<byte>) returns (rcode: int)
      requires Valid()
      modifies `count, `log, buffer
      ensures Valid() && Tally(fault, old(count), count, rcode)
      ensures log == old(log) + Plan(Mode.Read, offset0, offset0 + buffer.Length)
      ensures rcode == 0 ==> buffer[..] == FlatRead(wiring, cells, offset0, buffer.Length)
    {
      var offset, end, at: nat := offset0, offset0 + buffer.Length, 0;
      rcode := 0;
      ghost var planned, c0 := log + Plan(Mode.Read, offset0, end), count;
      TallyNone(fault, c0);
      while offset < end
        invariant Valid() && at <= buffer.Length && offset == offset0 + at && Tally(fault, c0, count, rcode)
        invariant ReadAt(wiring, cells, planned, log, offset0, buffer[..], at, rcode == 0)
      {
        var len;
        len, rcode := ReadStep(offset0, buffer, at, rcode, planned, c0);
        at := at + len;
        offset := offset + len;
      }
      AllRead(wiring, cells, planned, log, offset0, buffer[..], rcode == 0);
    }

    /** `eeprom_read` from `offset0` into the whole buffer. */
    method Read(offset0: nat, buffer: array<byte>) returns (rcode: int)
      requires Valid() && offset0 < WORD && buffer.Length < WORD
      modifies `count, `log, buffer
      ensures Valid()
      ensures Tally(fault, old(count), count, rcode)
      ensures offset0 + buffer.Length < WORD ==>
                && log == old(log) + Plan(Mode.Read, offset0, offset0 + buffer.Length)
                && (rcode == 0 ==> buffer[..] == FlatRead(wiring, cells, offset0, buffer.Length))
      ensures offset0 + buffer.Length >= WORD ==> rcode == 0 && buffer[..] == old(buffer[..]) && log == old(log)
    {
      var end := (offset0 + buffer.Length) % WORD;
      LoopEntered(offset0, buffer.Length);
      TallyNone(fault, count);
      rcode := 0;
      if offset0 < end {
        rcode := ReadLoop(offset0, buffer);
      }
    }

    /** What was written is read back, and both commands report success, exactly if all their transfers work. */
    method WriteAndReadBack(offset: nat, data: seq<byte>, buffer: array<byte>) returns (written: int, read: int)
      requires Valid() && buffer.Length == |data| && offset + |data| < WORD
      requires data == [] || wiring.InRange(offset + |data| - 1)
      modifies `cells, `count, `log, buffer
      ensures Valid()
      ensures written == 0 && read == 0 <==> AllWork(fault, old(count), count)
      ensures AllWork(fault, old(count), count) ==> buffer[..] == data
    {
      written := Write(offset, data);
      FlatReadWritten(wiring, old(cells), offset, data, |data|);
      read := Read(offset, buffer);
      assert data[..|data|] == data;
    }
  }
}
