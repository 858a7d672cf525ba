/**
 Flash banks and their sectors: what the plan for an address range should be, and the planner's work on one bank.
 */
module Flash {
  import opened Bytes

  /** A bank that is not UNKNOWN has sectors; an UNKNOWN one has none. */
  datatype Bank = Bank(unknown: bool, start: seq<nat>, size: nat)
  {
    /** The last address of sector `i`. */
    function SectorEnd(i: nat): int
      requires i < |start|
    {
      if i == |start| - 1 then End() - 1 else start[i + 1] as int - 1
    }

    /** The address after the bank. */
    function End(): nat
      requires start != []
    {
      start[0] + size
    }

    /** Sectors ascend and partition the bank, which lies in the address space. */
    ghost predicate Valid()
    {
      && (unknown <==> start == []) && |start| <= 32768
      && (!unknown ==> start[|start| - 1] < End() <= WORD)
      && (forall i, j | 0 <= i < j < |start| :: start[i] < start[j])
    }
  }

  /** Address `x` lies in the bank. */
  predicate Has(bk: Bank, x: int)
  {
    bk.start != [] && bk.start[0] <= x < bk.End()
  }

  ghost predicate Separate(bk: Bank, other: Bank)
  {
    bk.start == [] || other.start == [] || bk.End() <= other.start[0] || other.End() <= bk.start[0]
  }

  ghost predicate Sound(banks: seq<Bank>)
  {
    forall b | 0 <= b < |banks| :: banks[b].Valid()
  }

  /** Banks that do not overlap, mapped in any order and with any gaps. */
  ghost predicate FlashMap(banks: seq<Bank>)
  {
    && Sound(banks)
    && forall b, c {:trigger Separate(banks[b], banks[c])} | 0 <= b < c < |banks| :: Separate(banks[b], banks[c])
  }

  /** No address is in two banks. */
  lemma OneOwner(banks: seq<Bank>, x: int, b: nat, c: nat)
    requires FlashMap(banks) && b < |banks| && c < |banks|
    ensures Has(banks[b], x) && Has(banks[c], x) ==> b == c
  {
    assert b < c ==> Separate(banks[b], banks[c]);
    assert c < b ==> Separate(banks[c], banks[b]);
  }

  lemma SectorBounds(bk: Bank, i: nat)
    requires bk.Valid() && i < |bk.start|
    ensures Has(bk, bk.start[i]) && Has(bk, bk.SectorEnd(i)) && bk.start[i] <= bk.SectorEnd(i)
    ensures forall j | i < j < |bk.start| :: bk.SectorEnd(i) < bk.start[j]
  {
    assert i > 0 ==> bk.start[0] < bk.start[i];
    assert i < |bk.start| - 1 ==> bk.start[i] < bk.start[i + 1] && bk.start[i + 1] <= bk.start[|bk.start| - 1];
  }

  /** Sectors of one bank do not overlap: an earlier one ends before a later one starts. */
  lemma SectorBefore(bk: Bank, i: nat, j: nat)
    requires bk.Valid() && i < j < |bk.start|
    ensures bk.SectorEnd(i) < bk.start[j] && bk.start[i] <= bk.SectorEnd(i) < bk.SectorEnd(j)
  {
    SectorBounds(bk, i);
    SectorBounds(bk, j);
  }

  // ----- what a plan should be -----

  ghost predicate IsStart(banks: seq<Bank>, x: int)
  {
    exists b: nat, i: nat :: b < |banks| && i < |banks[b].start| && banks[b].start[i] == x
  }

  ghost predicate IsEnd(banks: seq<Bank>, x: int)
  {
    exists b: nat, i: nat :: b < |banks| && i < |banks[b].start| && banks[b].SectorEnd(i) == x
  }

  predicate Inside(bk: Bank, i: nat, first: int, last: int)
    requires i < |bk.start|
  {
    first <= bk.start[i] && bk.SectorEnd(i) <= last
  }

  function CountInside(bk: Bank, n: nat, first: int, last: int): nat
    requires n <= |bk.start|
  {
    if n == 0 then 0 else CountInside(bk, n - 1, first, last) + if Inside(bk, n - 1, first, last) then 1 else 0
  }

  /** The number of sectors of the first `b` banks that lie inside the range. */
  function CountAll(banks: seq<Bank>, b: nat, first: int, last: int): nat
    requires b <= |banks|
  {
    if b == 0 then 0
    else CountAll(banks, b - 1, first, last) + CountInside(banks[b - 1], |banks[b - 1].start|, first, last)
  }

  /** Bank `b`, sector `i` is in the plan. */
  predicate Chosen(sFirst: seq<int>, sLast: seq<int>, b: nat, i: nat)
    requires b < |sFirst| && b < |sLast|
  {
    0 <= sFirst[b] <= i <= sLast[b]
  }

  /** A recorded run lies in its bank. */
  ghost predicate RunIn(banks: seq<Bank>, sFirst: seq<int>, sLast: seq<int>, b: nat)
    requires b < |banks| && b < |sFirst| && b < |sLast|
  {
    sFirst[b] >= 0 ==> sFirst[b] <= sLast[b] < |banks[b].start|
  }

  ghost predicate Runs(banks: seq<Bank>, sFirst: seq<int>, sLast: seq<int>, n: nat)
    requires n <= |banks| && n <= |sFirst| && n <= |sLast|
  {
    forall b | 0 <= b < n :: RunIn(banks, sFirst, sLast, b)
  }

  /** In bank `b` the chosen sectors are exactly those inside the range. */
  ghost predicate ExactIn(banks: seq<Bank>, sFirst: seq<int>, sLast: seq<int>, b: nat, first: int, last: int)
    requires b < |banks| && b < |sFirst| && b < |sLast|
  {
    && (forall i: nat | i < |banks[b].start| :: Chosen(sFirst, sLast, b, i) <==> Inside(banks[b], i, first, last))
    && RunIn(banks, sFirst, sLast, b)
  }

  ghost predicate Exact(banks: seq<Bank>, sFirst: seq<int>, sLast: seq<int>, n: nat, first: int, last: int)
    requires n <= |banks| && n <= |sFirst| && n <= |sLast|
  {
    forall b | 0 <= b < n :: ExactIn(banks, sFirst, sLast, b, first, last)
  }

  /** The sectors inside a range are counted right when they form one run. */
  lemma {:induction false} CountRun(bk: Bank, n: nat, first: int, last: int, f: int, l: int)
    requires n <= |bk.start| && 0 <= f && -1 <= l
    requires forall i: nat | i < |bk.start| :: f <= i <= l <==> Inside(bk, i, first, last)
    ensures CountInside(bk, n, first, last) == if n <= f || l < f then 0 else if n <= l then n - f else l - f + 1
    decreases n
  {
    if n > 0 {
      CountRun(bk, n - 1, first, last, f, l);
    }
  }

  lemma {:induction false} SameCount(bk: Bank, n: nat, first: int, last: int, last': int)
    requires n <= |bk.start|
    requires forall i: nat | i < |bk.start| :: Inside(bk, i, first, last) <==> Inside(bk, i, first, last')
    ensures CountInside(bk, n, first, last) == CountInside(bk, n, first, last')
    decreases n
  {
    if n > 0 {
      SameCount(bk, n - 1, first, last, last');
    }
  }

  lemma {:induction false} NothingBefore(banks: seq<Bank>, n: nat, first: int)
    requires Sound(banks) && n <= |banks|
    ensures CountAll(banks, n, first, first - 1) == 0
    decreases n
  {
    if n > 0 {
      NothingBefore(banks, n - 1, first);
      var bk, last := banks[n - 1], first - 1;
      forall i: nat | i < |bk.start| ensures !Inside(bk, i, first, last) {
        SectorBounds(bk, i);
      }
      CountRun(bk, |bk.start|, first, last, 0, -1);
    }
  }

  // ----- how far a plan reaches -----

  /**
   Where a run of addresses from `x` on leaves flash, if the banks from `b` on are entered in the order of the list.
   For banks mapped in ascending order that is the first address from `x` on that no bank has.
   */
  ghost function Stop(banks: seq<Bank>, b: nat, x: nat): nat
    requires b <= |banks|
    decreases |banks| - b
  {
    if b == |banks| then x
    else Stop(banks, b + 1, if Has(banks[b], x) then banks[b].End() else x)
  }

  lemma {:induction false} StopGrows(banks: seq<Bank>, b: nat, x: nat)
    requires b <= |banks|
    ensures x <= Stop(banks, b, x)
    decreases |banks| - b
  {
    if b < |banks| {
      StopGrows(banks, b + 1, if Has(banks[b], x) then banks[b].End() else x);
    }
  }

  /** Every address up to the stop is in a bank that is still to come. */
  lemma {:induction false} StopCovered(banks: seq<Bank>, b: nat, x: nat, y: nat) returns (c: nat)
    requires b <= |banks| && x <= y < Stop(banks, b, x)
    ensures b <= c < |banks| && Has(banks[c], y) && banks[c].End() <= Stop(banks, b, x)
    decreases |banks| - b
  {
    if Has(banks[b], x) && y < banks[b].End() {
      c := b;
      StopGrows(banks, b + 1, banks[b].End());
    } else {
      c := StopCovered(banks, b + 1, if Has(banks[b], x) then banks[b].End() else x, y);
    }
  }

  lemma {:induction false} StopPast(banks: seq<Bank>, b: nat, x: nat, c: nat)
    requires b <= c < |banks| && Has(banks[c], x)
    ensures x < Stop(banks, b, x)
    decreases |banks| - b
  {
    if Has(banks[b], x) {
      StopGrows(banks, b + 1, banks[b].End());
    } else {
      StopPast(banks, b + 1, x, c);
    }
  }

  /** Where the plan for [first, last] ends: there, or where the run of banks does. */
  ghost function PlanEnd(banks: seq<Bank>, first: nat, last: nat): int
  {
    if last < Stop(banks, 0, first) then last else Stop(banks, 0, first) - 1
  }

  /**
   A range that can be planned: it starts at a sector start, and it ends at a sector end that the run of banks
   reaches or past that run at an address that ends no sector.
   */
  ghost predicate Plannable(banks: seq<Bank>, first: nat, last: nat)
  {
    IsStart(banks, first) && (IsEnd(banks, last) <==> last < Stop(banks, 0, first))
  }

  /** The index behind the first bank from `b` on that ends with the address space; the number of banks if there is none. */
  ghost function AfterTop(banks: seq<Bank>, b: nat): nat
    requires b <= |banks|
    ensures b <= AfterTop(banks, b) <= |banks|
    ensures AfterTop(banks, b) < |banks| ==> b < AfterTop(banks, b) && Has(banks[AfterTop(banks, b) - 1], WORD - 1)
    decreases |banks| - b
  {
    if b == |banks| then b else if Has(banks[b], WORD - 1) then b + 1 else AfterTop(banks, b + 1)
  }

  // ----- within one bank -----

  /** The index of the sector that starts at `a`, or -1. */
  ghost predicate StartIndex(bk: Bank, a: int, i: int)
  {
    if i < 0 then i == -1 && forall k | 0 <= k < |bk.start| :: bk.start[k] != a
    else i < |bk.start| && bk.start[i] == a
  }

  ghost predicate EndIndex(bk: Bank, l: int, i: int)
  {
    if i < 0 then i == -1 && forall k: nat | k < |bk.start| :: bk.SectorEnd(k) != l
    else i < |bk.start| && bk.SectorEnd(i) == l
  }

  /** The inner loop: looks for a sector that starts the range and one that ends it. */
  method ScanBank(bk: Bank, addrFirst: nat, addrLast: nat) returns (f: int, l: int)
    requires bk.Valid() && !bk.unknown && addrFirst <= addrLast < WORD
    ensures StartIndex(bk, addrFirst, f) && EndIndex(bk, addrLast, l)
  {
    f, l := -1, -1;
    var bEnd := (bk.start[0] + bk.size - 1) % WORD;
    var sEnd := |bk.start| - 1;
    for sect := 0 to |bk.start|
      invariant if f < 0 then f == -1 && forall k | 0 <= k < sect :: bk.start[k] != addrFirst
                else f < sect && bk.start[f] == addrFirst
      invariant if l < 0 then l == -1 && forall k: nat | k < sect :: bk.SectorEnd(k) != addrLast
                else l < sect && bk.SectorEnd(l) == addrLast
    {
      SectorBounds(bk, sect);
      var end := if sect == sEnd then bEnd else bk.start[sect + 1] - 1;
      if addrFirst > end { continue; }
      if addrLast < bk.start[sect] { continue; }
      if addrFirst == bk.start[sect] {
        f := sect;
      }
      if addrLast == end {
        l := sect;
      }
    }
  }

  lemma SectorInRun(bk: Bank, a: nat, first: nat, last: nat, f: nat, l: nat, i: nat)
    requires bk.Valid() && !bk.unknown && first <= a <= last && (first == a || a == bk.start[0])
    requires f < |bk.start| && bk.start[f] == a && l < |bk.start| && bk.SectorEnd(l) == last && i < |bk.start|
    ensures f <= i <= l <==> Inside(bk, i, first, last)
  {
    SectorBounds(bk, i);
    if i < f {
      SectorBefore(bk, i, f);
    } else if f < i {
      SectorBefore(bk, f, i);
    }
    if i < l {
      SectorBefore(bk, i, l);
    } else if l < i {
      SectorBefore(bk, l, i);
    }
  }

  /** A run from the sector that starts at `a` to the one that ends at `last`. */
  lemma RunIsInside(bk: Bank, a: nat, first: nat, last: nat, f: int, l: int)
    requires bk.Valid() && !bk.unknown && first <= a <= last && (first == a || a == bk.start[0])
    requires StartIndex(bk, a, f) && f >= 0 && EndIndex(bk, last, l) && l >= 0
    ensures f <= l && forall i: nat | i < |bk.start| :: f <= i <= l <==> Inside(bk, i, first, last)
    ensures CountInside(bk, |bk.start|, first, last) == l - f + 1
  {
    forall i: nat | i < |bk.start| ensures f <= i <= l <==> Inside(bk, i, first, last) {
      SectorInRun(bk, a, first, last, f, l, i);
    }
    if l < f {
      SectorBefore(bk, l, f);
    }
    CountRun(bk, |bk.start|, first, last, f, l);
  }

  /** Where the scan goes on after sector `l` of a bank whose run starts at sector `f`. */
  ghost predicate RunTo(bk: Bank, a: nat, last: nat, f: int, l: int, a': nat)
  {
    && StartIndex(bk, a, f) && 0 <= f <= l < |bk.start|
    && if Has(bk, last) then EndIndex(bk, last, l) && a' == (last + 1) % WORD
       else l == |bk.start| - 1 && a' == bk.End() <= last
  }

  /** The outcome of one bank: a run, nothing, or an error. */
  ghost predicate BankPlan(bk: Bank, a: nat, last: nat, count: int, ok: bool, f: int, l: int, a': nat, count': int)
    requires bk.start != []
  {
    && StartIndex(bk, a, f)
    && if f < 0 then
         && EndIndex(bk, last, l) && a' == a && count' == count
         && (ok <==> !(bk.start[0] <= a < bk.End() - 1) && l < 0)
       else if ok then RunTo(bk, a, last, f, l, a') && count' == count + (l - f + 1)
       else last < bk.End() && EndIndex(bk, last, -1)
  }

  /** The address behind a sector. */
  lemma NextSector(bk: Bank, l: nat)
    requires bk.Valid() && l < |bk.start|
    ensures (if l == |bk.start| - 1 then bk.End() % WORD else bk.start[l + 1]) == (bk.SectorEnd(l) + 1) % WORD
    ensures Has(bk, bk.SectorEnd(l))
  {
    SectorBounds(bk, l);
    if l < |bk.start| - 1 {
      SectorBounds(bk, l + 1);
    }
  }

  lemma RunOrdered(bk: Bank, a: nat, last: nat, f: nat, l: nat)
    requires bk.Valid() && f < |bk.start| && bk.start[f] == a <= last && l < |bk.start|
    requires l == |bk.start| - 1 || bk.SectorEnd(l) == last
    ensures f <= l
  {
    SectorBounds(bk, l);
  }

  /** The code's own arithmetic for the end of the bank and for the next address. */
  lemma RunFound(bk: Bank, a: nat, last: nat, f: int, l0: int, l: int)
    requires bk.Valid() && !bk.unknown && a <= last < WORD && StartIndex(bk, a, f) && f >= 0 && EndIndex(bk, last, l0)
    requires if l0 >= 0 then l == l0 else l == |bk.start| - 1 && bk.End() <= last
    ensures RunTo(bk, a, last, f, l, if l == |bk.start| - 1 then bk.End() % WORD else bk.start[l + 1])
  {
    RunOrdered(bk, a, last, f, l);
    NextSector(bk, l);
  }

  /** A run that starts in the bank ends there or goes on to its last sector. */
  method CloseRun(bk: Bank, ghost a: nat, last: nat, count: int, f: int, l0: int)
    returns (ok: bool, l: int, a': nat, count': int)
    requires bk.Valid() && !bk.unknown && a <= last < WORD && StartIndex(bk, a, f) && f >= 0 && EndIndex(bk, last, l0)
    ensures if ok then RunTo(bk, a, last, f, l, a') && count' == count + (l - f + 1)
            else last < bk.End() && EndIndex(bk, last, -1)
  {
    ok, l, a', count' := true, l0, 0, count;
    var bEnd := (bk.start[0] + bk.size - 1) % WORD;
    var sEnd := |bk.start| - 1;
    if l < 0 {
      if last > bEnd {
        l := sEnd;
      } else {
        ok := false;
        return;
      }
    }
    RunFound(bk, a, last, f, l0, l);
    if l < f {
      ok := false;
      return;
    }
    a' := if l == sEnd then (bEnd + 1) % WORD else bk.start[l + 1];
    count' := count + (l - f + 1);
  }

  /** The loop body for one bank that is not UNKNOWN; `ok` is false where the code reports an error. */
  method PlanBank(bk: Bank, a: nat, last: nat, count: int) returns (ok: bool, f: int, l: int, a': nat, count': int)
    requires bk.Valid() && !bk.unknown && a <= last < WORD
    ensures BankPlan(bk, a, last, count, ok, f, l, a', count')
  {
    ok, a', count' := true, a, count;
    var bEnd := (bk.start[0] + bk.size - 1) % WORD;
    f, l := ScanBank(bk, a, last);
    if f >= 0 {
      ok, l, a', count' := CloseRun(bk, a, last, count, f, l);
    } else if a >= bk.start[0] && a < bEnd {
      ok := false;
    } else if l >= 0 {
      ok := false;
    }
  }
}
