/**
 The `start +length` form of a flash range, and the protect command that carries a plan out.
 */
module FlashProtect {
  import opened Bytes
  import opened Flash
  import opened FlashPlan

  // ----- the `start +length` form -----

  predicate Holds(bk: Bank, i: nat, x: int)
    requires i < |bk.start|
  {
    bk.start[i] <= x <= bk.SectorEnd(i)
  }

  /** The sector has an address of [low, high]. */
  predicate Meets(bk: Bank, i: nat, low: int, high: int)
    requires i < |bk.start|
  {
    bk.start[i] <= high && low <= bk.SectorEnd(i)
  }

  /** `flash_sect_roundb`: moves an address to the end of its sector; fails outside all sectors. */
  method SectRoundb(banks: seq<Bank>, addr: nat) returns (rc: int, addr': int, ghost b: nat, ghost i: nat)
    requires Sound(banks)
    ensures rc == 0 || rc == 1
    ensures rc == 0 ==> b < |banks| && i < |banks[b].start| && Holds(banks[b], i, addr) && addr' == banks[b].SectorEnd(i)
    ensures rc == 1 ==>
              addr' == addr && forall c: nat, j: nat | c < |banks| && j < |banks[c].start| :: !Holds(banks[c], j, addr)
  {
    addr', b, i := addr, 0, 0;
    var bank := 0;
    while bank < |banks|
      invariant 0 <= bank <= |banks|
      invariant forall c: nat, j: nat | c < bank && j < |banks[c].start| :: !Holds(banks[c], j, addr)
    {
      var bk := banks[bank];
      for k := 0 to |bk.start|
        invariant forall j: nat | j < k :: !Holds(bk, j, addr)
      {
        SectorBounds(bk, k);
        var sectorEnd := if k == |bk.start| - 1 then (bk.start[0] + bk.size - 1) % WORD else bk.start[k + 1] - 1;
        if addr <= sectorEnd && addr >= bk.start[k] {
          if addr < sectorEnd {
            addr' := sectorEnd;
          }
          return 0, addr', bank, k;
        }
      }
      bank := bank + 1;
    }
    rc := 1;
  }

  /** Any two sectors: one ends before the other starts, or they are the same. */
  lemma SectorsApart(banks: seq<Bank>, b: nat, i: nat, c: nat, j: nat)
    requires FlashMap(banks) && b < |banks| && i < |banks[b].start| && c < |banks| && j < |banks[c].start|
    ensures banks[b].start[i] <= banks[b].SectorEnd(i) && banks[c].start[j] <= banks[c].SectorEnd(j)
    ensures (b == c && i == j) || banks[b].SectorEnd(i) < banks[c].start[j] || banks[c].SectorEnd(j) < banks[b].start[i]
  {
    SectorBounds(banks[b], i);
    SectorBounds(banks[c], j);
    if b < c {
      assert Separate(banks[b], banks[c]);
    } else if c < b {
      assert Separate(banks[c], banks[b]);
    }
  }

  /**
   From a sector start on, rounding the last address `x` up to the end of its sector makes the least range of whole
   sectors that covers [first, x]: the sectors inside it are exactly those that meet [first, x].
   */
  lemma LeastCover(banks: seq<Bank>, first: nat, x: nat, b: nat, i: nat, c: nat, j: nat)
    requires FlashMap(banks) && IsStart(banks, first) && first <= x
    requires b < |banks| && i < |banks[b].start| && Holds(banks[b], i, x) && c < |banks| && j < |banks[c].start|
    ensures Inside(banks[c], j, first, banks[b].SectorEnd(i)) <==> Meets(banks[c], j, first, x)
  {
    var d: nat, k: nat :| d < |banks| && k < |banks[d].start| && banks[d].start[k] == first;
    SectorsApart(banks, d, k, c, j);
    SectorsApart(banks, b, i, c, j);
  }

  /** Every address of a bank is in one of its sectors. */
  lemma SectorOf(bk: Bank, x: int) returns (i: nat)
    requires bk.Valid() && Has(bk, x)
    ensures i < |bk.start| && Holds(bk, i, x)
  {
    i := 0;
    while i + 1 < |bk.start| && bk.start[i + 1] <= x
      invariant i < |bk.start| && bk.start[i] <= x
    {
      i := i + 1;
    }
  }

  /** The numeric part of `addr_spec`: -1 for a range whose end is not in flash. */
  method AddrSpec(banks: seq<Bank>, first: nat, second: nat, lenUsed: bool)
    returns (rc: int, last: int, ghost b: nat, ghost i: nat)
    requires Sound(banks) && first < WORD && second < WORD
    ensures !lenUsed ==> rc == 1 && last == second
    ensures lenUsed ==>
              var x := (first + second - 1) % WORD;
              if rc == 1 then b < |banks| && i < |banks[b].start| && Holds(banks[b], i, x) && last == banks[b].SectorEnd(i)
              else rc == -1 && forall c: nat, j: nat | c < |banks| && j < |banks[c].start| :: !Holds(banks[c], j, x)
  {
    last, rc, b, i := second, 1, 0, 0;
    if lenUsed {
      last := (first + second - 1) % WORD;
      var code;
      code, last, b, i := SectRoundb(banks, last);
      if code > 0 {
        rc := -1;
      }
    }
  }

  /** A `start +length` range that can be planned, as a caller can see it: a single address makes no range. */
  ghost predicate LengthPlannable(banks: seq<Bank>, first: nat, x: nat)
  {
    IsStart(banks, first) && first <= x < Stop(banks, 0, first) && !(x == first && IsEnd(banks, first))
  }

  /** The sector that holds an address from a sector start on ends there or later. */
  lemma RoundedUp(banks: seq<Bank>, first: nat, x: nat, b: nat, i: nat)
    requires FlashMap(banks) && b < |banks| && i < |banks[b].start| && Holds(banks[b], i, x) && IsStart(banks, first)
    ensures first < banks[b].SectorEnd(i) <==> first <= x && !(x == first && IsEnd(banks, first))
  {
    var d: nat, k: nat :| d < |banks| && k < |banks[d].start| && banks[d].start[k] == first;
    SectorsApart(banks, d, k, b, i);
    if x == first && IsEnd(banks, first) {
      var c: nat, j: nat :| c < |banks| && j < |banks[c].start| && banks[c].SectorEnd(j) == first;
      SectorsApart(banks, b, i, c, j);
    }
    assert banks[b].SectorEnd(i) == first ==> IsEnd(banks, first);
  }

  /** The rounded range can be planned exactly if the run of banks reaches the last address asked for. */
  lemma RoundedPlan(banks: seq<Bank>, first: nat, x: nat, b: nat, i: nat)
    requires FlashMap(banks) && b < |banks| && i < |banks[b].start| && Holds(banks[b], i, x)
    ensures var last := banks[b].SectorEnd(i);
            0 <= last < WORD && (first < last && Plannable(banks, first, last) <==> LengthPlannable(banks, first, x))
  {
    var last := banks[b].SectorEnd(i);
    SectorBounds(banks[b], i);
    assert IsEnd(banks, last);
    if IsStart(banks, first) {
      RoundedUp(banks, first, x, b, i);
    }
    if first <= x < Stop(banks, 0, first) {
      var c := StopCovered(banks, 0, first, x);
      OneOwner(banks, x, b, c);
    }
  }

  /** All sectors at once: the rounded range covers exactly those that meet what was asked for. */
  lemma RoundedSectors(banks: seq<Bank>, first: nat, x: nat, b: nat, i: nat, last: int)
    requires FlashMap(banks) && LengthPlannable(banks, first, x)
    requires b < |banks| && i < |banks[b].start| && Holds(banks[b], i, x) && last == banks[b].SectorEnd(i)
    ensures forall c: nat, j: nat | c < |banks| && j < |banks[c].start| ::
              Inside(banks[c], j, first, last) <==> Meets(banks[c], j, first, x)
  {
    forall c: nat, j: nat | c < |banks| && j < |banks[c].start|
      ensures Inside(banks[c], j, first, last) <==> Meets(banks[c], j, first, x)
    {
      LeastCover(banks, first, x, b, i, c, j);
    }
  }

  /** An address that the run of banks reaches is in some sector. */
  lemma ReachedIsHeld(banks: seq<Bank>, first: nat, x: nat)
    requires FlashMap(banks) && first <= x < Stop(banks, 0, first)
    ensures exists c: nat, j: nat :: c < |banks| && j < |banks[c].start| && Holds(banks[c], j, x)
  {
    var c := StopCovered(banks, 0, first, x);
    var j := SectorOf(banks[c], x);
  }

  // ----- carrying out a plan -----

  class FlashArray {
    const banks: seq<Bank>
    var protect: seq<seq<bool>>

    ghost predicate Valid()
      reads this
    {
      && FlashMap(banks) && |protect| == |banks|
      && forall b | 0 <= b < |banks| :: |protect[b]| == |banks[b].start|
    }

    constructor (banks: seq<Bank>)
      requires FlashMap(banks)
      ensures Valid() && this.banks == banks
    {
      this.banks := banks;
      protect := seq(|banks|, b requires 0 <= b < |banks| => seq(|banks[b].start|, _ => false));
    }

    /** Sets the flags of the sectors `f` to `l` of one bank. */
    method ProtectRun(b: nat, f: int, l: int, p: bool) returns (count: int)
      requires Valid() && b < |banks| && 0 <= f && l < |banks[b].start|
      modifies this
      ensures Valid() && |protect| == |old(protect)| && count == l - f + 1
      ensures forall c: nat, i: nat | c < |protect| && i < |protect[c]| ::
                protect[c][i] == if c == b && f <= i <= l then p else old(protect)[c][i]
    {
      count := l - f + 1;
      var i := f;
      while i <= l
        invariant Valid() && f <= i && (i <= l + 1 || i == f)
        invariant forall c: nat, k: nat | c < |protect| && k < |protect[c]| ::
                    protect[c][k] == if c == b && f <= k < i then p else old(protect)[c][k]
        decreases l + 1 - i
      {
        protect := protect[b := protect[b][i := p]];
        i := i + 1;
      }
    }

    /** The bank loop of `flash_sect_protect`: sets and counts the flags of exactly the chosen sectors. */
    method ProtectPlan(p: bool, sFirst: seq<int>, sLast: seq<int>) returns (protected: int)
      requires Valid() && |sFirst| == |sLast| == |banks| && Runs(banks, sFirst, sLast, |banks|)
      modifies this
      ensures Valid() && |protect| == |old(protect)| && protected == RunTotal(sFirst, sLast, |banks|)
      ensures forall b: nat, i: nat | b < |banks| && i < |banks[b].start| ::
                protect[b][i] == if Chosen(sFirst, sLast, b, i) then p else old(protect)[b][i]
    {
      protected := 0;
      for bank := 0 to |banks|
        invariant Valid() && protected == RunTotal(sFirst, sLast, bank)
        invariant forall b: nat, i: nat | b < |banks| && i < |banks[b].start| ::
                    protect[b][i] == if b < bank && Chosen(sFirst, sLast, b, i) then p else old(protect)[b][i]
      {
        assert RunIn(banks, sFirst, sLast, bank) && banks[bank].Valid();
        if !banks[bank].unknown && sFirst[bank] >= 0 && sFirst[bank] <= sLast[bank] {
          var n := ProtectRun(bank, sFirst[bank], sLast[bank], p);
          protected := protected + n;
        }
      }
    }

    /**
     `flash_sect_protect`: sets exactly the flags of the sectors that are taken for a range which can be planned, and
     counts them; otherwise reports an error and leaves all flags alone.
     */
    method SectProtect(p: bool, first: nat, last: nat) returns (rcode: int, protected: int)
      requires Valid() && last < WORD
      modifies this
      ensures Valid() && |protect| == |old(protect)|
      ensures rcode == 0 <==> first <= last && Plannable(banks, first, last)
      ensures rcode == 0 ==>
                && protected == TakenCount(banks, first, last) > 0
                && forall b: nat, i: nat | b < |banks| && i < |banks[b].start| ::
                     protect[b][i] == if Taken(banks, first, last, b, i) then p else old(protect)[b][i]
      ensures rcode != 0 ==> protect == old(protect)
    {
      var sFirst, sLast := new int[|banks|], new int[|banks|];
      var planned;
      rcode, planned := FillSectRanges(banks, first, last, sFirst, sLast);
      protected := 0;
      if planned > 0 && rcode == 0 {
        protected := ProtectPlan(p, sFirst[..], sLast[..]);
      } else if rcode == 0 {
        rcode := 1;
      }
    }

    /**
     The `protect on|off start +length` command: it succeeds if and only if `start` is a sector start and the run of
     banks reaches the last address asked for, and then sets exactly the flags of the sectors that meet the range.
     */
    method ProtectLength(p: bool, first: nat, length: nat) returns (rcode: int, ghost last: int)
      requires Valid() && first < WORD && length < WORD
      modifies this
      ensures Valid() && |protect| == |old(protect)|
      ensures rcode == 0 <==> LengthPlannable(banks, first, (first + length - 1) % WORD)
      ensures rcode == 0 ==> (first + length - 1) % WORD <= last < WORD && IsEnd(banks, last)
      ensures rcode == 0 ==>
                forall c: nat, j: nat | c < |banks| && j < |banks[c].start| ::
                  protect[c][j] ==
                  if Meets(banks[c], j, first, (first + length - 1) % WORD) || TakenAgain(banks, first, last, c, j) then p
                  else old(protect)[c][j]
      ensures rcode != 0 ==> protect == old(protect)
    {
      ghost var x := (first + length - 1) % WORD;
      var rc, addrLast;
      ghost var b, i;
      rc, addrLast, b, i := AddrSpec(banks, first, length, true);
      last := addrLast;
      if rc < 0 {
        if LengthPlannable(banks, first, x) {
          ReachedIsHeld(banks, first, x);
        }
        return 1, last;
      }
      RoundedPlan(banks, first, x, b, i);
      if first >= addrLast {
        return -1, last;
      }
      var protected;
      rcode, protected := SectProtect(p, first, addrLast);
      if rcode == 0 {
        assert IsEnd(banks, last);
        RoundedSectors(banks, first, x, b, i, last);
      }
    }
  }
}
