/**
 The flash range planner over all banks: from an address range to runs of sectors, for banks mapped in any order and
 with any gaps.
 */
module FlashPlan {
  import opened Bytes
  import opened Flash

  // ----- who owns an address -----

  lemma OwnStart(banks: seq<Bank>, b: nat, x: int, f: int)
    requires FlashMap(banks) && b < |banks| && Has(banks[b], x) && StartIndex(banks[b], x, f)
    ensures IsStart(banks, x) <==> f >= 0
  {
    if IsStart(banks, x) {
      var c: nat, i: nat :| c < |banks| && i < |banks[c].start| && banks[c].start[i] == x;
      SectorBounds(banks[c], i);
      OneOwner(banks, x, b, c);
    }
  }

  lemma OwnEnd(banks: seq<Bank>, b: nat, x: int, l: int)
    requires FlashMap(banks) && b < |banks| && Has(banks[b], x) && EndIndex(banks[b], x, l)
    ensures IsEnd(banks, x) <==> l >= 0
  {
    if IsEnd(banks, x) {
      var c: nat, i: nat :| c < |banks| && i < |banks[c].start| && banks[c].SectorEnd(i) == x;
      SectorBounds(banks[c], i);
      OneOwner(banks, x, b, c);
    }
  }

  /** One of the first `n` banks has address `x`. */
  ghost predicate Owned(banks: seq<Bank>, n: nat, x: int)
    requires n <= |banks|
  {
    exists c: nat :: c < n && Has(banks[c], x)
  }

  ghost predicate Covered(banks: seq<Bank>, n: nat, first: int, last: int)
    requires n <= |banks|
  {
    forall x | first <= x <= last :: Owned(banks, n, x)
  }

  /** No sector of the first `n` banks ends at `last`. */
  ghost predicate NoEnd(banks: seq<Bank>, n: nat, last: int)
    requires n <= |banks|
  {
    forall k: nat, i: nat | k < n && i < |banks[k].start| :: banks[k].SectorEnd(i) != last
  }

  lemma NotOwned(banks: seq<Bank>, n: nat, x: int, b: nat)
    requires FlashMap(banks) && n <= b < |banks|
    ensures Owned(banks, n, x) ==> !Has(banks[b], x)
  {
    if Owned(banks, n, x) {
      var c: nat :| c < n && Has(banks[c], x);
      OneOwner(banks, x, b, c);
    }
  }

  /** The plan as far as bank `b`: whole for the addresses up to `last`, which the banks seen so far have. */
  ghost predicate Planned(banks: seq<Bank>, sf: seq<int>, sl: seq<int>, b: nat, first: int, last: int, count: int)
    requires b <= |banks| == |sf| == |sl|
  {
    && Covered(banks, b, first, last) && Exact(banks, sf, sl, b, first, last)
    && count == CountAll(banks, b, first, last)
  }

  /** Bank `b` holds the addresses after `was` up to `now`: the longer range takes no more from the banks before it. */
  lemma {:induction false} EarlierSame(banks: seq<Bank>, sf: seq<int>, sl: seq<int>, n: nat, b: nat, first: int,
                                       was: int, now: int)
    requires FlashMap(banks) && n <= b < |banks| == |sf| == |sl| && was <= now
    requires forall x | was < x <= now :: Has(banks[b], x)
    requires Exact(banks, sf, sl, n, first, was)
    ensures Exact(banks, sf, sl, n, first, now)
    ensures CountAll(banks, n, first, now) == CountAll(banks, n, first, was)
    decreases n
  {
    if n > 0 {
      var k, bk := n - 1, banks[n - 1];
      EarlierSame(banks, sf, sl, k, b, first, was, now);
      assert ExactIn(banks, sf, sl, k, first, was);
      forall i: nat | i < |bk.start| ensures Inside(bk, i, first, now) <==> Inside(bk, i, first, was) {
        SectorBounds(bk, i);
        OneOwner(banks, bk.SectorEnd(i), k, b);
      }
      SameCount(bk, |bk.start|, first, now, was);
      assert ExactIn(banks, sf, sl, k, first, now);
    }
  }

  lemma NotInside(banks: seq<Bank>, n: nat, b: nat, first: int, last: int, i: nat)
    requires FlashMap(banks) && n <= b < |banks| && Covered(banks, n, first, last) && i < |banks[b].start|
    ensures !Inside(banks[b], i, first, last)
  {
    SectorBounds(banks[b], i);
    if first <= banks[b].start[i] <= last {
      assert Owned(banks, n, banks[b].start[i]);
      NotOwned(banks, n, banks[b].start[i], b);
    }
  }

  /** Banks after those that have the whole range hold no sector of it. */
  lemma NothingInside(banks: seq<Bank>, n: nat, b: nat, first: int, last: int)
    requires FlashMap(banks) && n <= b < |banks| && Covered(banks, n, first, last)
    ensures forall i: nat | i < |banks[b].start| :: !Inside(banks[b], i, first, last)
    ensures CountInside(banks[b], |banks[b].start|, first, last) == 0
  {
    forall i: nat | i < |banks[b].start| ensures !Inside(banks[b], i, first, last) {
      NotInside(banks, n, b, first, last, i);
    }
    CountRun(banks[b], |banks[b].start|, first, last, 0, -1);
  }

  lemma CoveredMore(banks: seq<Bank>, n: nat, first: int, was: int, now: int)
    requires n < |banks| && Covered(banks, n, first, was)
    requires was >= now || (Has(banks[n], was + 1) && Has(banks[n], now))
    ensures Covered(banks, n + 1, first, now)
  {
    var m := n + 1;
    forall x | first <= x <= now ensures Owned(banks, m, x) {
      if x <= was {
        assert Owned(banks, n, x);
      } else {
        assert Has(banks[n], x);
      }
    }
  }

  lemma NothingNext(banks: seq<Bank>, sf: seq<int>, sl: seq<int>, b: nat, first: int, last: int, count: int)
    requires FlashMap(banks) && b < |banks| == |sf| == |sl| && sf[b] == -1
    requires Planned(banks, sf, sl, b, first, last, count)
    ensures Planned(banks, sf, sl, b + 1, first, last, count)
  {
    NothingInside(banks, b, b, first, last);
    CoveredMore(banks, b, first, last, last);
    assert ExactIn(banks, sf, sl, b, first, last);
  }

  lemma {:induction false} NothingLater(banks: seq<Bank>, sf: seq<int>, sl: seq<int>, b: nat, n: nat, first: int,
                                        last: int, count: int)
    requires FlashMap(banks) && b <= n <= |banks| == |sf| == |sl|
    requires forall k | b <= k < n :: sf[k] == -1
    requires Planned(banks, sf, sl, b, first, last, count)
    ensures Planned(banks, sf, sl, n, first, last, count)
    decreases n
  {
    if b < n {
      NothingLater(banks, sf, sl, b, n - 1, first, last, count);
      NothingNext(banks, sf, sl, n - 1, first, last, count);
    }
  }

  lemma ExactGrows(banks: seq<Bank>, sf: seq<int>, sl: seq<int>, b: nat, first: int, last: int, f: int, l: int)
    requires b < |banks| == |sf| == |sl| && Exact(banks, sf, sl, b, first, last)
    requires 0 <= f <= l < |banks[b].start|
    requires forall i: nat | i < |banks[b].start| :: f <= i <= l <==> Inside(banks[b], i, first, last)
    ensures Exact(banks, sf[b := f], sl[b := l], b + 1, first, last)
  {
    var sf', sl' := sf[b := f], sl[b := l];
    forall c | 0 <= c < b + 1 ensures ExactIn(banks, sf', sl', c, first, last) {
      if c < b {
        assert ExactIn(banks, sf, sl, c, first, last);
      }
    }
  }

  /** Recording the run of bank `b` that fills [a, last] extends the plan. */
  lemma PlanGrows(banks: seq<Bank>, sf: seq<int>, sl: seq<int>, b: nat, first: nat, a: nat, last: nat, count: int,
                  f: int, l: int, count': int)
    requires FlashMap(banks) && b < |banks| == |sf| == |sl| && !banks[b].unknown && count' == count + (l - f + 1)
    requires first <= a <= last && (first == a || a == banks[b].start[0])
    requires Has(banks[b], a) && Has(banks[b], last)
    requires Planned(banks, sf, sl, b, first, a - 1, count)
    requires StartIndex(banks[b], a, f) && f >= 0 && EndIndex(banks[b], last, l) && l >= 0
    ensures Planned(banks, sf[b := f], sl[b := l], b + 1, first, last, count')
  {
    RunIsInside(banks[b], a, first, last, f, l);
    EarlierSame(banks, sf, sl, b, b, first, a - 1, last);
    ExactGrows(banks, sf, sl, b, first, last, f, l);
    CoveredMore(banks, b, first, a - 1, last);
  }

  // ----- from bank to bank -----

  /** `Again(e)`: the range ends with the address space, in bank `e - 1`, and the scan goes on from address 0. */
  datatype Phase = Open | Missed | Finished | Again(e: nat)

  /** The range [first, a) is behind and the banks from `b` on are still to come. */
  ghost predicate OnWay(banks: seq<Bank>, first: nat, last: nat, b: nat, a: nat)
    requires b <= |banks|
  {
    && first <= a && (first < a ==> IsStart(banks, first) && a <= last)
    && Stop(banks, b, a) == Stop(banks, 0, first) && NoEnd(banks, b, last)
  }

  /** The plan covers [first, a) and goes on with the banks from `b` on. */
  ghost predicate OpenAt(banks: seq<Bank>, sf: seq<int>, sl: seq<int>, first: nat, last: nat, b: nat, a: nat,
                         count: int)
    requires b <= |banks| == |sf| == |sl|
  {
    OnWay(banks, first, last, b, a) && Planned(banks, sf, sl, b, first, a - 1, count) && (first < a ==> count > 0)
  }

  /** The plan covers [first, last]. */
  ghost predicate Complete(banks: seq<Bank>, sf: seq<int>, sl: seq<int>, first: nat, last: nat, b: nat, count: int)
    requires b <= |banks| == |sf| == |sl|
  {
    && first <= last < Stop(banks, 0, first) && IsStart(banks, first) && IsEnd(banks, last) && count > 0
    && Planned(banks, sf, sl, b, first, last, count)
  }

  /** The plan of the first `e` banks is complete, and one for the addresses from 0 on goes on in the others. */
  ghost predicate AgainAt(banks: seq<Bank>, sf: seq<int>, sl: seq<int>, first: nat, last: nat, e: nat, b: nat, a: nat,
                          count: int)
    requires b <= |banks| == |sf| == |sl|
  {
    && 0 < e <= b && last == WORD - 1 && Has(banks[e - 1], last)
    && Complete(banks, sf, sl, first, last, e, CountAll(banks, e, first, last))
    && OpenAt(banks[e..], sf[e..], sl[e..], 0, last, b - e, a, count - CountAll(banks, e, first, last))
  }

  /** What is known when the planner comes to bank `b` with start address `a`. */
  ghost predicate At(banks: seq<Bank>, sf: seq<int>, sl: seq<int>, first: nat, last: nat, phase: Phase, b: nat,
                     a: nat, count: int)
    requires b <= |banks| == |sf| == |sl|
  {
    && (forall k | b <= k < |banks| :: sf[k] == -1)
    && match phase
       case Open => OpenAt(banks, sf, sl, first, last, b, a, count)
       case Missed => a == first && count == 0 && !IsStart(banks, first)
       case Finished => a == last + 1 < WORD && Complete(banks, sf, sl, first, last, b, count)
       case Again(e) => AgainAt(banks, sf, sl, first, last, e, b, a, count)
  }

  /** The first bank that has the next address of a plan under way begins there. */
  lemma Boundary(banks: seq<Bank>, n: nat, first: nat, a: nat, b: nat)
    requires FlashMap(banks) && n <= b < |banks| && Covered(banks, n, first, a - 1) && Has(banks[b], a) && first < a
    ensures banks[b].start[0] == a
  {
    assert Owned(banks, n, a - 1);
    NotOwned(banks, n, a - 1, b);
  }

  /** The first bank of the rest that has the next address is the one the run goes on in. */
  lemma StopFrom(banks: seq<Bank>, b: nat, a: nat)
    requires b < |banks| && Has(banks[b], a)
    ensures banks[b].End() <= Stop(banks, b, a) == Stop(banks, b + 1, banks[b].End())
  {
    StopGrows(banks, b + 1, banks[b].End());
  }

  // A bank that does not have the next address.

  lemma OpenPassed(banks: seq<Bank>, sf: seq<int>, sl: seq<int>, first: nat, last: nat, b: nat, a: nat, count: int)
    requires FlashMap(banks) && b < |banks| == |sf| == |sl| && sf[b] == -1
    requires !Has(banks[b], a) && EndIndex(banks[b], last, -1)
    requires OpenAt(banks, sf, sl, first, last, b, a, count)
    ensures OpenAt(banks, sf, sl, first, last, b + 1, a, count)
  {
    NothingNext(banks, sf, sl, b, first, a - 1, count);
  }

  lemma RestMap(banks: seq<Bank>, e: nat)
    requires FlashMap(banks) && e <= |banks|
    ensures FlashMap(banks[e..])
  {
    var rest := banks[e..];
    forall b, c | 0 <= b < c < |rest| ensures Separate(rest[b], rest[c]) {
      assert Separate(banks[e + b], banks[e + c]);
    }
  }

  lemma OwnedMore(banks: seq<Bank>, e: nat, b: nat, x: int)
    requires e <= b <= |banks| && Owned(banks, e, x)
    ensures Owned(banks, b, x)
  {
  }

  lemma AgainPassed(banks: seq<Bank>, sf: seq<int>, sl: seq<int>, first: nat, last: nat, e: nat, b: nat, a: nat,
                    count: int)
    requires FlashMap(banks) && b < |banks| == |sf| == |sl| && sf[b] == -1
    requires !Has(banks[b], a) && EndIndex(banks[b], last, -1)
    requires AgainAt(banks, sf, sl, first, last, e, b, a, count)
    ensures AgainAt(banks, sf, sl, first, last, e, b + 1, a, count)
  {
    RestMap(banks, e);
    OpenPassed(banks[e..], sf[e..], sl[e..], 0, last, b - e, a, count - CountAll(banks, e, first, last));
  }

  /** A bank that has neither the next address nor the end of the range changes nothing. */
  lemma PassedOver(banks: seq<Bank>, sf: seq<int>, sl: seq<int>, first: nat, last: nat, phase: Phase, b: nat,
                   a: nat, count: int)
    requires FlashMap(banks) && b < |banks| == |sf| == |sl|
    requires !Has(banks[b], a) && EndIndex(banks[b], last, -1)
    requires At(banks, sf, sl, first, last, phase, b, a, count)
    ensures At(banks, sf, sl, first, last, phase, b + 1, a, count)
  {
    match phase
    case Open => OpenPassed(banks, sf, sl, first, last, b, a, count);
    case Missed =>
    case Finished => NothingNext(banks, sf, sl, b, first, last, count);
    case Again(e) => AgainPassed(banks, sf, sl, first, last, e, b, a, count);
  }

  /** A bank that ends the range but does not have the next address: the run of banks never gets there. */
  lemma OutOfReach(banks: seq<Bank>, sf: seq<int>, sl: seq<int>, first: nat, last: nat, b: nat, a: nat, count: int,
                   l: int)
    requires FlashMap(banks) && b < |banks| == |sf| == |sl| && a <= last
    requires !Has(banks[b], a) && EndIndex(banks[b], last, l) && l >= 0
    requires OpenAt(banks, sf, sl, first, last, b, a, count)
    ensures !Plannable(banks, first, last)
  {
    SectorBounds(banks[b], l);
    assert IsEnd(banks, last);
    if last < Stop(banks, b + 1, a) {
      var c := StopCovered(banks, b + 1, a, last);
      OneOwner(banks, last, b, c);
    }
  }

  /** The banks seen so far have the end of the range, so no other bank does. */
  lemma EndSeen(banks: seq<Bank>, b: nat, last: nat, l: int)
    requires FlashMap(banks) && b < |banks| && Owned(banks, b, last) && EndIndex(banks[b], last, l)
    ensures l == -1 && !Has(banks[b], last)
  {
    NotOwned(banks, b, last, b);
    if l >= 0 {
      SectorBounds(banks[b], l);
    }
  }

  // A bank with a sector that starts at the next address.

  lemma RunStarts(banks: seq<Bank>, first: nat, last: nat, b: nat, a: nat, f: int)
    requires FlashMap(banks) && b < |banks| && !banks[b].unknown && Covered(banks, b, first, a - 1)
    requires OnWay(banks, first, last, b, a) && StartIndex(banks[b], a, f) && f >= 0
    ensures Has(banks[b], a) && (first == a || a == banks[b].start[0]) && IsStart(banks, first)
    ensures banks[b].End() <= Stop(banks, 0, first) == Stop(banks, b + 1, banks[b].End())
  {
    SectorBounds(banks[b], f);
    if first < a {
      Boundary(banks, b, first, a, b);
    }
    assert IsStart(banks, a);
    StopFrom(banks, b, a);
  }

  /** The range ends in this bank, at a sector end. */
  lemma RunEnds(banks: seq<Bank>, sf: seq<int>, sl: seq<int>, first: nat, last: nat, b: nat, a: nat, count: int,
                f: int, l: int, a': nat, count': int)
    requires FlashMap(banks) && b < |banks| == |sf| == |sl| && !banks[b].unknown && a <= last < WORD
    requires OpenAt(banks, sf, sl, first, last, b, a, count)
    requires RunTo(banks[b], a, last, f, l, a') && count' == count + (l - f + 1) && Has(banks[b], last)
    ensures Complete(banks, sf[b := f], sl[b := l], first, last, b + 1, count')
  {
    RunStarts(banks, first, last, b, a, f);
    PlanGrows(banks, sf, sl, b, first, a, last, count, f, l, count');
    assert IsEnd(banks, last);
  }

  /** A range that ends with the address space leaves the rest of the banks to a scan from 0 on. */
  lemma StartsAgain(banks: seq<Bank>, sf: seq<int>, sl: seq<int>, first: nat, last: nat, e: nat, count: int)
    requires 0 < e <= |banks| == |sf| == |sl| && last == WORD - 1 && Has(banks[e - 1], last)
    requires Complete(banks, sf, sl, first, last, e, count)
    ensures AgainAt(banks, sf, sl, first, last, e, e, 0, count)
  {
    var rest := banks[e..];
    assert Stop(rest, 0, 0) == Stop(rest, 0, 0) && CountAll(rest, 0, 0, -1) == 0;
    assert Planned(rest, sf[e..], sl[e..], 0, 0, -1, 0);
  }

  lemma NoEndMore(banks: seq<Bank>, b: nat, last: nat)
    requires FlashMap(banks) && b < |banks| && NoEnd(banks, b, last) && !Has(banks[b], last)
    ensures NoEnd(banks, b + 1, last)
  {
    forall i: nat | i < |banks[b].start| ensures banks[b].SectorEnd(i) != last {
      SectorBounds(banks[b], i);
    }
  }

  lemma RunPlanned(banks: seq<Bank>, sf: seq<int>, sl: seq<int>, b: nat, first: nat, a: nat, count: int,
                   f: int, l: int, top: nat, count': int)
    requires FlashMap(banks) && b < |banks| == |sf| == |sl| && !banks[b].unknown && count' == count + (l - f + 1)
    requires first <= a && (first == a || a == banks[b].start[0]) && Has(banks[b], a)
    requires Planned(banks, sf, sl, b, first, a - 1, count)
    requires StartIndex(banks[b], a, f) && f >= 0 && l == |banks[b].start| - 1 && top + 1 == banks[b].End()
    ensures Planned(banks, sf[b := f], sl[b := l], b + 1, first, top, count')
  {
    PlanGrows(banks, sf, sl, b, first, a, top, count, f, l, count');
  }

  lemma WayGoesOn(banks: seq<Bank>, first: nat, last: nat, b: nat, a: nat, f: int, a': nat)
    requires FlashMap(banks) && b < |banks| && !banks[b].unknown && Covered(banks, b, first, a - 1)
    requires OnWay(banks, first, last, b, a) && StartIndex(banks[b], a, f) && f >= 0 && a' == banks[b].End() <= last
    ensures OnWay(banks, first, last, b + 1, a') && first < a'
    ensures Has(banks[b], a) && (first == a || a == banks[b].start[0])
  {
    RunStarts(banks, first, last, b, a, f);
    NoEndMore(banks, b, last);
  }

  /** The range goes on after this bank. */
  lemma RunGoesOn(banks: seq<Bank>, sf: seq<int>, sl: seq<int>, first: nat, last: nat, b: nat, a: nat, count: int,
                  f: int, l: int, a': nat, count': int)
    requires FlashMap(banks) && b < |banks| == |sf| == |sl| && !banks[b].unknown
    requires OpenAt(banks, sf, sl, first, last, b, a, count)
    requires StartIndex(banks[b], a, f) && 0 <= f <= l == |banks[b].start| - 1 && a' == banks[b].End() <= last
    requires count' == count + (l - f + 1)
    ensures OpenAt(banks, sf[b := f], sl[b := l], first, last, b + 1, a', count')
  {
    WayGoesOn(banks, first, last, b, a, f, a');
    RunPlanned(banks, sf, sl, b, first, a, count, f, l, a' - 1, count');
  }

  lemma ExactRuns(banks: seq<Bank>, sf: seq<int>, sl: seq<int>, n: nat, first: int, last: int)
    requires n <= |banks| == |sf| == |sl| && Exact(banks, sf, sl, n, first, last)
    ensures Runs(banks, sf, sl, n)
  {
    forall c | 0 <= c < n ensures RunIn(banks, sf, sl, c) {
      assert ExactIn(banks, sf, sl, c, first, last);
    }
  }

  /** A run in a later bank leaves the plan of the first ones alone. */
  lemma CompleteKept(banks: seq<Bank>, sf: seq<int>, sl: seq<int>, first: nat, last: nat, e: nat, count: int,
                     b: nat, f: int, l: int)
    requires e <= b < |banks| == |sf| == |sl| && Complete(banks, sf, sl, first, last, e, count)
    ensures Complete(banks, sf[b := f], sl[b := l], first, last, e, count)
  {
    var sf', sl' := sf[b := f], sl[b := l];
    forall c | 0 <= c < e ensures ExactIn(banks, sf', sl', c, first, last) {
      assert ExactIn(banks, sf, sl, c, first, last);
    }
  }

  /** The scan from 0 on takes a bank. */
  lemma AgainTaken(banks: seq<Bank>, sf: seq<int>, sl: seq<int>, first: nat, last: nat, e: nat, b: nat, a: nat, count: int,
                   f: int, l: int, a': nat, count': int)
    requires FlashMap(banks) && b < |banks| == |sf| == |sl| && !banks[b].unknown && !Has(banks[b], last)
    requires AgainAt(banks, sf, sl, first, last, e, b, a, count)
    requires RunTo(banks[b], a, last, f, l, a') && count' == count + (l - f + 1)
    ensures AgainAt(banks, sf[b := f], sl[b := l], first, last, e, b + 1, a', count')
  {
    var n := CountAll(banks, e, first, last);
    RestMap(banks, e);
    CompleteKept(banks, sf, sl, first, last, e, n, b, f, l);
    RunGoesOn(banks[e..], sf[e..], sl[e..], 0, last, b - e, a, count - n, f, l, a', count' - n);
    assert sf[b := f][e..] == sf[e..][b - e := f] && sl[b := l][e..] == sl[e..][b - e := l];
  }

  /** The end of the range lies in a bank that is already behind. */
  lemma EndBehind(banks: seq<Bank>, sf: seq<int>, sl: seq<int>, first: nat, last: nat, e: nat, b: nat, count: int)
    requires FlashMap(banks) && e <= b < |banks| == |sf| == |sl| && Complete(banks, sf, sl, first, last, e, count)
    ensures Owned(banks, b, last) && !Has(banks[b], last)
  {
    assert Owned(banks, e, last);
    OwnedMore(banks, e, b, last);
    NotOwned(banks, b, last, b);
  }

  lemma StillOpen(banks: seq<Bank>, sf: seq<int>, sl: seq<int>, first: nat, last: nat, phase: Phase, b: nat,
                  a: nat, count: int, f: int)
    requires FlashMap(banks) && b < |banks| == |sf| == |sl| && a <= last
    requires At(banks, sf, sl, first, last, phase, b, a, count)
    requires StartIndex(banks[b], a, f) && f >= 0
    ensures phase == Open || (phase.Again? && !Has(banks[b], last))
  {
    assert IsStart(banks, a);
    if phase.Again? {
      EndBehind(banks, sf, sl, first, last, phase.e, b, CountAll(banks, phase.e, first, last));
    }
  }

  function NextPhase(bk: Bank, b: nat, last: nat, phase: Phase): Phase
  {
    if phase != Open || !Has(bk, last) then phase else if last == WORD - 1 then Again(b + 1) else Finished
  }

  /** The run of bank `b` is recorded on the way to the end of the range. */
  lemma TakeOpenRun(banks: seq<Bank>, sf: seq<int>, sl: seq<int>, first: nat, last: nat, b: nat, a: nat, count: int,
                    f: int, l: int, a': nat, count': int)
    requires FlashMap(banks) && b < |banks| == |sf| == |sl| && !banks[b].unknown && a <= last < WORD
    requires At(banks, sf, sl, first, last, Open, b, a, count)
    requires RunTo(banks[b], a, last, f, l, a') && count' == count + (l - f + 1)
    ensures At(banks, sf[b := f], sl[b := l], first, last, NextPhase(banks[b], b, last, Open), b + 1, a', count')
  {
    if !Has(banks[b], last) {
      RunGoesOn(banks, sf, sl, first, last, b, a, count, f, l, a', count');
    } else {
      RunEnds(banks, sf, sl, first, last, b, a, count, f, l, a', count');
      if last == WORD - 1 {
        StartsAgain(banks, sf[b := f], sl[b := l], first, last, b + 1, count');
      }
    }
  }

  /** The run of bank `b` is recorded. */
  lemma TakeRun(banks: seq<Bank>, sf: seq<int>, sl: seq<int>, first: nat, last: nat, phase: Phase, b: nat, a: nat,
                count: int, f: int, l: int, a': nat, count': int, next: Phase)
    requires FlashMap(banks) && b < |banks| == |sf| == |sl| && !banks[b].unknown && a <= last < WORD
    requires At(banks, sf, sl, first, last, phase, b, a, count)
    requires RunTo(banks[b], a, last, f, l, a') && count' == count + (l - f + 1)
    requires next == NextPhase(banks[b], b, last, phase)
    ensures At(banks, sf[b := f], sl[b := l], first, last, next, b + 1, a', count')
  {
    StillOpen(banks, sf, sl, first, last, phase, b, a, count, f);
    if phase.Again? {
      AgainTaken(banks, sf, sl, first, last, phase.e, b, a, count, f, l, a', count');
    } else {
      TakeOpenRun(banks, sf, sl, first, last, b, a, count, f, l, a', count');
    }
  }

  /** The range ends inside a sector of this bank. */
  lemma EndsInSector(banks: seq<Bank>, sf: seq<int>, sl: seq<int>, first: nat, last: nat, phase: Phase, b: nat, a: nat,
                     count: int, f: int)
    requires FlashMap(banks) && b < |banks| == |sf| == |sl| && !banks[b].unknown && a <= last < banks[b].End()
    requires At(banks, sf, sl, first, last, phase, b, a, count)
    requires StartIndex(banks[b], a, f) && f >= 0 && EndIndex(banks[b], last, -1)
    ensures !Plannable(banks, first, last)
  {
    SectorBounds(banks[b], f);
    StillOpen(banks, sf, sl, first, last, phase, b, a, count, f);
    OwnEnd(banks, b, last, -1);
    StopFrom(banks, b, a);
  }

  /** In the scan from 0 on, a bank that has the next address starts there. */
  lemma AgainNotStarted(banks: seq<Bank>, sf: seq<int>, sl: seq<int>, first: nat, last: nat, e: nat, b: nat, a: nat,
                        count: int)
    requires FlashMap(banks) && b < |banks| == |sf| == |sl| && AgainAt(banks, sf, sl, first, last, e, b, a, count)
    ensures Has(banks[b], a) ==> banks[b].start[0] == a
  {
    RestMap(banks, e);
    if Has(banks[b], a) && a > 0 {
      Boundary(banks[e..], b - e, 0, a, b - e);
    }
  }

  /** No sector of the bank starts at `a`: an error, or on to the next bank. */
  lemma PassBank(banks: seq<Bank>, sf: seq<int>, sl: seq<int>, first: nat, last: nat, phase: Phase, b: nat, a: nat,
                 count: int,
                 l: int)
    returns (next: Phase)
    requires FlashMap(banks) && b < |banks| == |sf| == |sl| && !banks[b].unknown && a <= last < WORD
    requires At(banks, sf, sl, first, last, phase, b, a, count)
    requires StartIndex(banks[b], a, -1) && EndIndex(banks[b], last, l)
    ensures if banks[b].start[0] <= a < banks[b].End() - 1 || l >= 0 then !Plannable(banks, first, last)
            else At(banks, sf, sl, first, last, next, b + 1, a, count)
  {
    next := phase;
    assert banks[b].start[0] != a;
    match phase
    case Open =>
      if Has(banks[b], a) {
        if first < a {
          Boundary(banks, b, first, a, b);
        }
        OwnStart(banks, b, a, -1);
        NothingBefore(banks, b, first);
        next := Missed;
      } else if l >= 0 {
        OutOfReach(banks, sf, sl, first, last, b, a, count, l);
      } else {
        OpenPassed(banks, sf, sl, first, last, b, a, count);
      }
    case Missed =>
    case Again(e) =>
      EndBehind(banks, sf, sl, first, last, e, b, CountAll(banks, e, first, last));
      EndSeen(banks, b, last, l);
      AgainNotStarted(banks, sf, sl, first, last, e, b, a, count);
      AgainPassed(banks, sf, sl, first, last, e, b, a, count);
    case Finished =>
  }

  lemma SameExact(banks: seq<Bank>, sf: seq<int>, sl: seq<int>, sl': seq<int>, n: nat, first: int, last: int)
    requires n <= |banks| == |sf| == |sl| == |sl'| && Exact(banks, sf, sl, n, first, last)
    requires forall k | 0 <= k < |sf| :: sf[k] < 0 || sl[k] == sl'[k]
    ensures Exact(banks, sf, sl', n, first, last)
  {
    forall c | 0 <= c < n ensures ExactIn(banks, sf, sl', c, first, last) {
      assert ExactIn(banks, sf, sl, c, first, last);
    }
  }

  /** The `s_last` entry of a bank without a run does not matter. */
  lemma SameLast(banks: seq<Bank>, sf: seq<int>, sl: seq<int>, sl': seq<int>, first: nat, last: nat, phase: Phase,
                 b: nat, a: nat, count: int)
    requires b <= |banks| == |sf| == |sl| == |sl'| && At(banks, sf, sl, first, last, phase, b, a, count)
    requires forall k | 0 <= k < |sf| :: sf[k] < 0 || sl[k] == sl'[k]
    ensures At(banks, sf, sl', first, last, phase, b, a, count)
  {
    if phase == Open {
      SameExact(banks, sf, sl, sl', b, first, a - 1);
    } else if phase == Finished {
      SameExact(banks, sf, sl, sl', b, first, last);
    } else if phase.Again? {
      var e := phase.e;
      SameExact(banks, sf, sl, sl', e, first, last);
      SameExact(banks[e..], sf[e..], sl[e..], sl'[e..], b - e, 0, a - 1);
    }
  }

  // ----- the planner -----

  /** The first bank of a second scan from address 0 on: there is one if the range ends with the address space. */
  ghost function Second(banks: seq<Bank>, first: nat, last: nat): nat
  {
    if last == WORD - 1 && last < Stop(banks, 0, first) then AfterTop(banks, 0) else |banks|
  }

  /** A sector that is taken: inside the range as far as the run of banks goes, or in the run of a second scan. */
  ghost predicate Taken(banks: seq<Bank>, first: nat, last: nat, b: nat, i: nat)
    requires b < |banks| && i < |banks[b].start|
  {
    || Inside(banks[b], i, first, PlanEnd(banks, first, last))
    || TakenAgain(banks, first, last, b, i)
  }

  ghost predicate TakenAgain(banks: seq<Bank>, first: nat, last: nat, b: nat, i: nat)
    requires b < |banks| && i < |banks[b].start|
  {
    var e := Second(banks, first, last);
    e <= b && Inside(banks[b], i, 0, Stop(banks, e, 0) - 1)
  }

  /** The number of sectors that are taken. */
  ghost function TakenCount(banks: seq<Bank>, first: nat, last: nat): nat
  {
    var e := Second(banks, first, last);
    CountAll(banks, |banks|, first, PlanEnd(banks, first, last)) +
    if e <= |banks| then CountAll(banks[e..], |banks| - e, 0, Stop(banks, e, 0) - 1) else 0
  }

  /** The number of sectors in the runs of the first `n` banks. */
  function RunTotal(sFirst: seq<int>, sLast: seq<int>, n: nat): int
    requires n <= |sFirst| == |sLast|
  {
    if n == 0 then 0
    else RunTotal(sFirst, sLast, n - 1) + if sFirst[n - 1] < 0 then 0 else sLast[n - 1] - sFirst[n - 1] + 1
  }

  lemma {:induction false} TotalIsCount(banks: seq<Bank>, sFirst: seq<int>, sLast: seq<int>, n: nat, first: int,
                                        last: int)
    requires n <= |banks| == |sFirst| == |sLast| && Exact(banks, sFirst, sLast, n, first, last)
    ensures RunTotal(sFirst, sLast, n) == CountAll(banks, n, first, last)
    decreases n
  {
    if n > 0 {
      var k := n - 1;
      TotalIsCount(banks, sFirst, sLast, k, first, last);
      assert ExactIn(banks, sFirst, sLast, k, first, last);
      var bk, f, l := banks[k], sFirst[k], sLast[k];
      assert forall i: nat | i < |bk.start| :: Chosen(sFirst, sLast, k, i) <==> 0 <= f <= i <= l;
      CountRun(bk, |bk.start|, first, last, if f < 0 then 0 else f, if f < 0 then -1 else l);
    }
  }

  /** A plan that has been made: it holds exactly the sectors that are to be taken, and counts them. */
  ghost predicate PlanMade(banks: seq<Bank>, sf: seq<int>, sl: seq<int>, first: nat, last: nat, count: int)
    requires |banks| == |sf| == |sl|
  {
    && Runs(banks, sf, sl, |banks|) && RunTotal(sf, sl, |banks|) == count == TakenCount(banks, first, last)
    && forall b: nat, i: nat | b < |banks| && i < |banks[b].start| ::
         Chosen(sf, sl, b, i) <==> Taken(banks, first, last, b, i)
  }

  lemma NotAnEnd(banks: seq<Bank>, last: nat)
    requires Sound(banks) && NoEnd(banks, |banks|, last)
    ensures !IsEnd(banks, last)
  {
  }

  lemma StartReached(banks: seq<Bank>, first: nat)
    requires Sound(banks) && IsStart(banks, first)
    ensures first < Stop(banks, 0, first)
  {
    var c: nat, i: nat :| c < |banks| && i < |banks[c].start| && banks[c].start[i] == first;
    SectorBounds(banks[c], i);
    StopPast(banks, 0, first, c);
  }

  /** The banks have been seen and none of them has the start of the range. */
  lemma NeverStarted(banks: seq<Bank>, sf: seq<int>, sl: seq<int>, first: nat, last: nat, count: int)
    requires FlashMap(banks) && |banks| == |sf| == |sl|
    requires OpenAt(banks, sf, sl, first, last, |banks|, first, count)
    ensures count == 0 && !IsStart(banks, first)
  {
    NothingBefore(banks, |banks|, first);
    if IsStart(banks, first) {
      StartReached(banks, first);
    }
  }

  /** The banks have been seen and the range goes on: the plan ends where they do. */
  lemma OpenSeen(banks: seq<Bank>, sf: seq<int>, sl: seq<int>, first: nat, last: nat, a: nat, count: int)
    requires FlashMap(banks) && |banks| == |sf| == |sl| && first < a
    requires OpenAt(banks, sf, sl, first, last, |banks|, a, count)
    ensures Plannable(banks, first, last) && PlanMade(banks, sf, sl, first, last, count)
  {
    NotAnEnd(banks, last);
    ExactMade(banks, sf, sl, first, last, a - 1, count);
  }

  /** A plan that is exact up to `end` and goes no further. */
  lemma ExactMade(banks: seq<Bank>, sf: seq<int>, sl: seq<int>, first: nat, last: nat, end: int, count: int)
    requires |banks| == |sf| == |sl| && end == PlanEnd(banks, first, last) && Second(banks, first, last) == |banks|
    requires Planned(banks, sf, sl, |banks|, first, end, count)
    ensures PlanMade(banks, sf, sl, first, last, count)
  {
    ExactRuns(banks, sf, sl, |banks|, first, end);
    TotalIsCount(banks, sf, sl, |banks|, first, end);
    forall b: nat, i: nat | b < |banks| && i < |banks[b].start|
      ensures Chosen(sf, sl, b, i) <==> Taken(banks, first, last, b, i)
    {
      assert ExactIn(banks, sf, sl, b, first, end);
    }
  }

  lemma FinishedSeen(banks: seq<Bank>, sf: seq<int>, sl: seq<int>, first: nat, last: nat, b: nat, count: int)
    requires FlashMap(banks) && b <= |banks| == |sf| == |sl| && last < WORD - 1
    requires forall k | b <= k < |banks| :: sf[k] == -1
    requires Complete(banks, sf, sl, first, last, b, count)
    ensures PlanMade(banks, sf, sl, first, last, count)
  {
    NothingLater(banks, sf, sl, b, |banks|, first, last, count);
    ExactMade(banks, sf, sl, first, last, last, count);
  }

  /** The bank that ends with the address space is the one after which the scan starts again. */
  lemma {:induction false} TopFound(banks: seq<Bank>, b: nat, e: nat)
    requires FlashMap(banks) && b < e <= |banks| && Has(banks[e - 1], WORD - 1)
    ensures AfterTop(banks, b) == e
    decreases e - b
  {
    OneOwner(banks, WORD - 1, b, e - 1);
    if b < e - 1 {
      TopFound(banks, b + 1, e);
    }
  }

  lemma {:induction false} StopOfRest(banks: seq<Bank>, e: nat, b: nat, x: nat)
    requires e <= b <= |banks|
    ensures Stop(banks[e..], b - e, x) == Stop(banks, b, x)
    decreases |banks| - b
  {
    if b < |banks| {
      StopOfRest(banks, e, b + 1, if Has(banks[b], x) then banks[b].End() else x);
    }
  }

  /** Later banks add nothing to a range that the first ones cover. */
  lemma {:induction false} CountCovered(banks: seq<Bank>, e: nat, n: nat, first: int, last: int)
    requires FlashMap(banks) && e <= n <= |banks| && Covered(banks, e, first, last)
    ensures CountAll(banks, n, first, last) == CountAll(banks, e, first, last)
    decreases n
  {
    if e < n {
      CountCovered(banks, e, n - 1, first, last);
      NothingInside(banks, e, n - 1, first, last);
    }
  }

  lemma {:induction false} TotalParts(sf: seq<int>, sl: seq<int>, e: nat, n: nat)
    requires e <= n <= |sf| == |sl|
    ensures RunTotal(sf, sl, n) == RunTotal(sf, sl, e) + RunTotal(sf[e..], sl[e..], n - e)
    decreases n
  {
    if e < n {
      TotalParts(sf, sl, e, n - 1);
    }
  }

  /** One sector, when the scan has started again at bank `e` and come to address `a`. */
  lemma AgainChosen(banks: seq<Bank>, sf: seq<int>, sl: seq<int>, first: nat, last: nat, e: nat, a: nat, count: int,
                    b: nat, i: nat)
    requires FlashMap(banks) && |banks| == |sf| == |sl| && AgainAt(banks, sf, sl, first, last, e, |banks|, a, count)
    requires b < |banks| && i < |banks[b].start|
    ensures Chosen(sf, sl, b, i) <==>
            Inside(banks[b], i, first, last) || (b >= e && Inside(banks[b], i, 0, a - 1))
    ensures RunIn(banks, sf, sl, b)
  {
    if b < e {
      assert ExactIn(banks, sf, sl, b, first, last);
    } else {
      assert ExactIn(banks[e..], sf[e..], sl[e..], b - e, 0, a - 1);
      assert Chosen(sf[e..], sl[e..], b - e, i) <==> Chosen(sf, sl, b, i);
      NotInside(banks, e, b, first, last, i);
    }
  }

  /** Where the second scan starts and stops. */
  lemma AgainFrom(banks: seq<Bank>, sf: seq<int>, sl: seq<int>, first: nat, last: nat, e: nat, a: nat, count: int)
    requires FlashMap(banks) && |banks| == |sf| == |sl| && AgainAt(banks, sf, sl, first, last, e, |banks|, a, count)
    ensures Second(banks, first, last) == e && PlanEnd(banks, first, last) == last && Stop(banks, e, 0) == a
  {
    TopFound(banks, 0, e);
    StopOfRest(banks, e, e, 0);
  }

  lemma AgainTotal(banks: seq<Bank>, sf: seq<int>, sl: seq<int>, first: nat, last: nat, e: nat, a: nat, count: int)
    requires FlashMap(banks) && |banks| == |sf| == |sl| && AgainAt(banks, sf, sl, first, last, e, |banks|, a, count)
    ensures RunTotal(sf, sl, |banks|) == count
    ensures count ==
            CountAll(banks, |banks|, first, last) + CountAll(banks[e..], |banks| - e, 0, a - 1)
    ensures CountAll(banks, |banks|, first, last) > 0
  {
    CountCovered(banks, e, |banks|, first, last);
    TotalIsCount(banks, sf, sl, e, first, last);
    TotalIsCount(banks[e..], sf[e..], sl[e..], |banks| - e, 0, a - 1);
    TotalParts(sf, sl, e, |banks|);
  }

  lemma AgainSeen(banks: seq<Bank>, sf: seq<int>, sl: seq<int>, first: nat, last: nat, e: nat, a: nat, count: int)
    requires FlashMap(banks) && |banks| == |sf| == |sl| && AgainAt(banks, sf, sl, first, last, e, |banks|, a, count)
    ensures count > 0 && PlanMade(banks, sf, sl, first, last, count)
  {
    AgainFrom(banks, sf, sl, first, last, e, a, count);
    AgainTotal(banks, sf, sl, first, last, e, a, count);
    AgainRuns(banks, sf, sl, first, last, e, a, count);
    forall b: nat, i: nat | b < |banks| && i < |banks[b].start|
      ensures Chosen(sf, sl, b, i) <==> Taken(banks, first, last, b, i)
    {
      AgainChosen(banks, sf, sl, first, last, e, a, count, b, i);
    }
  }

  lemma AgainRuns(banks: seq<Bank>, sf: seq<int>, sl: seq<int>, first: nat, last: nat, e: nat, a: nat, count: int)
    requires |banks| == |sf| == |sl| && AgainAt(banks, sf, sl, first, last, e, |banks|, a, count)
    ensures Runs(banks, sf, sl, |banks|)
  {
    ExactRuns(banks, sf, sl, e, first, last);
    ExactRuns(banks[e..], sf[e..], sl[e..], |banks| - e, 0, a - 1);
    forall b | 0 <= b < |banks| ensures RunIn(banks, sf, sl, b) {
      if b >= e {
        assert RunIn(banks[e..], sf[e..], sl[e..], b - e);
      }
    }
  }

  /** What the phases say when all banks have been seen. */
  lemma AllSeen(banks: seq<Bank>, sf: seq<int>, sl: seq<int>, first: nat, last: nat, phase: Phase, b: nat, a: nat,
                count: int)
    requires FlashMap(banks) && b <= |banks| == |sf| == |sl| && (b == |banks| || a > last)
    requires first <= last < WORD
    requires At(banks, sf, sl, first, last, phase, b, a, count)
    ensures count > 0 <==> Plannable(banks, first, last)
    ensures count > 0 ==> PlanMade(banks, sf, sl, first, last, count)
  {
    match phase
    case Open =>
      if first == a {
        NeverStarted(banks, sf, sl, first, last, count);
      } else {
        OpenSeen(banks, sf, sl, first, last, a, count);
      }
    case Missed =>
    case Finished => FinishedSeen(banks, sf, sl, first, last, b, count);
    case Again(e) => AgainSeen(banks, sf, sl, first, last, e, a, count);
  }

  lemma BankPassed(banks: seq<Bank>, sf: seq<int>, sl: seq<int>, first: nat, last: nat, phase: Phase, b: nat,
                   a: nat, count: int,
                   ok: bool, f: int, l: int)
    returns (next: Phase)
    requires FlashMap(banks) && b < |banks| == |sf| == |sl| && !banks[b].unknown && a <= last < WORD
    requires At(banks, sf, sl, first, last, phase, b, a, count)
    requires f == -1 && StartIndex(banks[b], a, -1) && EndIndex(banks[b], last, l)
    requires ok <==> !(banks[b].start[0] <= a < banks[b].End() - 1) && l < 0
    ensures if ok then At(banks, sf[b := f], sl[b := l], first, last, next, b + 1, a, count)
            else !Plannable(banks, first, last)
  {
    next := PassBank(banks, sf, sl, first, last, phase, b, a, count, l);
    if ok {
      assert sf[b := f] == sf;
      SameLast(banks, sf, sl, sl[b := l], first, last, next, b + 1, a, count);
    }
  }

  /** What the planner does with bank `b` it is right to do. */
  lemma BankPlanned(banks: seq<Bank>, sf: seq<int>, sl: seq<int>, first: nat, last: nat, phase: Phase, b: nat,
                    a: nat, count: int,
                    ok: bool, f: int, l: int, a': nat, count': int)
    returns (next: Phase)
    requires FlashMap(banks) && b < |banks| == |sf| == |sl| && !banks[b].unknown && a <= last < WORD
    requires At(banks, sf, sl, first, last, phase, b, a, count)
    requires BankPlan(banks[b], a, last, count, ok, f, l, a', count')
    ensures if ok then At(banks, sf[b := f], sl[b := l], first, last, next, b + 1, a', count')
            else !Plannable(banks, first, last)
  {
    next := phase;
    if f < 0 {
      next := BankPassed(banks, sf, sl, first, last, phase, b, a, count, ok, f, l);
    } else if ok {
      next := NextPhase(banks[b], b, last, phase);
      TakeRun(banks, sf, sl, first, last, phase, b, a, count, f, l, a', count', next);
    } else {
      EndsInSector(banks, sf, sl, first, last, phase, b, a, count, f);
    }
  }

  method NoRuns(sFirst: array<int>, sLast: array<int>)
    requires sFirst.Length == sLast.Length && sFirst != sLast
    modifies sFirst, sLast
    ensures forall k | 0 <= k < sFirst.Length :: sFirst[k] == -1 && sLast[k] == -1
  {
    for i := 0 to sFirst.Length
      invariant forall k | 0 <= k < i :: sFirst[k] == -1 && sLast[k] == -1
    {
      sFirst[i] := -1;
      sLast[i] := -1;
    }
  }

  lemma PlanOpens(banks: seq<Bank>, sf: seq<int>, sl: seq<int>, first: nat, last: nat)
    requires |banks| == |sf| == |sl| && forall k | 0 <= k < |sf| :: sf[k] == -1
    ensures At(banks, sf, sl, first, last, Open, 0, first, 0)
  {
  }

  /**
   `flash_fill_sect_ranges`, for banks mapped in any order and with any gaps. A plan is made if and only if the range
   can be planned; it then holds exactly the sectors inside the range, as far as the run of banks goes.
   */
  method FillSectRanges(banks: seq<Bank>, first: nat, last: nat, sFirst: array<int>, sLast: array<int>)
    returns (rcode: int, count: int)
    requires FlashMap(banks) && last < WORD
    requires sFirst.Length == sLast.Length == |banks| && sFirst != sLast
    modifies sFirst, sLast
    ensures rcode == 0 && count > 0 <==> first <= last && Plannable(banks, first, last)
    ensures rcode == 0 && count > 0 ==> PlanMade(banks, sFirst[..], sLast[..], first, last, count)
  {
    rcode, count := 0, 0;
    NoRuns(sFirst, sLast);
    ghost var sf, sl, phase := sFirst[..], sLast[..], Open;
    PlanOpens(banks, sf, sl, first, last);
    var bank, addrFirst: nat := 0, first;
    while bank < |banks| && addrFirst <= last
      invariant bank <= |banks| && sFirst[..] == sf && sLast[..] == sl
      invariant first <= last || (addrFirst == first && count == 0)
      invariant At(banks, sf, sl, first, last, phase, bank, addrFirst, count)
    {
      if banks[bank].unknown {
        PassedOver(banks, sf, sl, first, last, phase, bank, addrFirst, count);
        bank := bank + 1;
        continue;
      }
      var ok, f, l, next, n := PlanBank(banks[bank], addrFirst, last, count);
      phase := BankPlanned(banks, sf, sl, first, last, phase, bank, addrFirst, count, ok, f, l, next, n);
      sFirst[bank], sLast[bank] := f, l;
      sf, sl := sf[bank := f], sl[bank := l];
      if !ok {
        return 1, n;
      }
      addrFirst, count := next, n;
      bank := bank + 1;
    }
    if first <= last {
      AllSeen(banks, sf, sl, first, last, phase, bank, addrFirst, count);
    }
  }

  // ----- what the plan misses -----

  /** A sector inside the range that the plan leaves out lies behind the place where the run of banks stops. */
  lemma MissedSector(banks: seq<Bank>, first: nat, last: nat, b: nat, i: nat)
    requires FlashMap(banks) && b < |banks| && i < |banks[b].start|
    ensures Inside(banks[b], i, first, last) ==>
              (Inside(banks[b], i, first, PlanEnd(banks, first, last)) <==> !Inside(banks[b], i, Stop(banks, 0, first), last))
  {
    var stop, x := Stop(banks, 0, first), banks[b].start[i];
    SectorBounds(banks[b], i);
    if first <= x < stop {
      var c := StopCovered(banks, 0, first, x);
      OneOwner(banks, x, b, c);
    }
  }

  /** Such plans are made: behind a gap a whole bank inside the range is left out without an error. */
  lemma GapLeavesOut(banks: seq<Bank>)
    requires banks == [Bank(false, [0], 2), Bank(false, [4], 2)]
    ensures FlashMap(banks) && Plannable(banks, 0, 6)
    ensures Inside(banks[1], 0, 0, 6) && !Inside(banks[1], 0, 0, PlanEnd(banks, 0, 6))
  {
    assert Stop(banks, 1, 2) == 2;
    assert banks[0].start[0] == 0;
  }

  /** A range up to the last address of all can wrap: the bank at 0 is taken too, though it is outside the range. */
  lemma TopTakesBankAtZero(banks: seq<Bank>)
    requires banks == [Bank(false, [WORD - 2], 2), Bank(false, [0], 2)]
    ensures FlashMap(banks) && Plannable(banks, WORD - 2, WORD - 1)
    ensures !Inside(banks[1], 0, WORD - 2, WORD - 1) && Taken(banks, WORD - 2, WORD - 1, 1, 0)
  {
    assert |banks| == 2 && Stop(banks, 2, 2) == 2 && Stop(banks, 2, WORD) == WORD;
    assert !Has(banks[1], WORD) && Stop(banks, 1, WORD) == WORD;
    assert banks[0].start[0] == WORD - 2 && banks[0].SectorEnd(0) == WORD - 1;
    assert Has(banks[0], WORD - 1) && Has(banks[1], 0);
    assert Second(banks, WORD - 2, WORD - 1) == 1;
  }

  /** There is a second scan only for a range that ends with the address space, and only of the banks behind. */
  lemma OnlyBehindTheTop(banks: seq<Bank>, first: nat, last: nat, b: nat, i: nat)
    requires b < |banks| && i < |banks[b].start| && TakenAgain(banks, first, last, b, i)
    ensures last == WORD - 1 && exists e: nat :: e < b && Has(banks[e], last)
  {
    var e := Second(banks, first, last);
    assert Has(banks[e - 1], last);
  }

  /** Where the banks begin and end if they follow each other without gaps from `base` on. */
  ghost function Base(banks: seq<Bank>, base: nat, b: nat): nat
    requires b <= |banks|
  {
    if b == 0 then base else Base(banks, base, b - 1) + if banks[b - 1].unknown then 0 else banks[b - 1].size
  }

  ghost predicate InPlace(banks: seq<Bank>, base: nat, b: nat)
    requires b < |banks|
  {
    banks[b].start != [] ==> banks[b].start[0] == Base(banks, base, b)
  }

  ghost predicate Contiguous(banks: seq<Bank>, base: nat)
  {
    Sound(banks) && forall b | 0 <= b < |banks| :: InPlace(banks, base, b)
  }

  lemma {:induction false} BaseAscends(banks: seq<Bank>, base: nat, b: nat, c: nat)
    requires b <= c <= |banks|
    ensures Base(banks, base, b) <= Base(banks, base, c)
    decreases c
  {
    if b < c {
      BaseAscends(banks, base, b, c - 1);
    }
  }

  lemma ContiguousApart(banks: seq<Bank>, base: nat)
    requires Contiguous(banks, base)
    ensures FlashMap(banks)
  {
    forall b, c | 0 <= b < c < |banks| ensures Separate(banks[b], banks[c]) {
      assert InPlace(banks, base, b) && InPlace(banks, base, c);
      BaseAscends(banks, base, b + 1, c);
    }
  }

  lemma {:induction false} StopAtEnd(banks: seq<Bank>, base: nat, b: nat, x: nat)
    requires Contiguous(banks, base) && b <= |banks| && Base(banks, base, b) <= x <= Base(banks, base, |banks|)
    requires x == Base(banks, base, b) || x < Base(banks, base, |banks|)
    ensures Stop(banks, b, x) == Base(banks, base, |banks|)
    decreases |banks| - b
  {
    if b < |banks| {
      assert InPlace(banks, base, b) && banks[b].Valid();
      BaseAscends(banks, base, b + 1, |banks|);
      StopAtEnd(banks, base, b + 1, if Has(banks[b], x) then banks[b].End() else x);
    }
  }

  lemma SectorInFlash(banks: seq<Bank>, base: nat, b: nat, i: nat)
    requires Contiguous(banks, base) && b < |banks| && i < |banks[b].start|
    ensures base <= banks[b].start[i] <= banks[b].SectorEnd(i) < Base(banks, base, |banks|)
  {
    assert InPlace(banks, base, b);
    SectorBounds(banks[b], i);
    BaseAscends(banks, base, 0, b);
    BaseAscends(banks, base, b + 1, |banks|);
  }

  lemma GaplessStop(banks: seq<Bank>, base: nat, first: nat)
    requires Contiguous(banks, base) && IsStart(banks, first)
    ensures Stop(banks, 0, first) == Base(banks, base, |banks|)
  {
    var b: nat, i: nat :| b < |banks| && i < |banks[b].start| && banks[b].start[i] == first;
    SectorInFlash(banks, base, b, i);
    StopAtEnd(banks, base, 0, first);
  }

  lemma GaplessNoWrap(banks: seq<Bank>, base: nat, first: nat, last: nat, b: nat, i: nat)
    requires Contiguous(banks, base) && b < |banks| && i < |banks[b].start|
    ensures !TakenAgain(banks, first, last, b, i)
  {
    if TakenAgain(banks, first, last, b, i) {
      OnlyBehindTheTop(banks, first, last, b, i);
      var e: nat :| e < b && Has(banks[e], WORD - 1);
      assert InPlace(banks, base, e) && InPlace(banks, base, b);
      BaseAscends(banks, base, e + 1, b);
      assert false;
    }
  }

  /**
   Banks without gaps, as the documentation of the flash banks describes them: a range is planned if and only if it
   starts at a sector start and ends at a sector end or past the last bank, and the plan misses nothing.
   */
  lemma GaplessPlan(banks: seq<Bank>, base: nat, first: nat, last: nat)
    requires Contiguous(banks, base) && first <= last
    ensures FlashMap(banks)
    ensures Plannable(banks, first, last) <==>
              IsStart(banks, first) && (IsEnd(banks, last) || last >= Base(banks, base, |banks|))
    ensures Plannable(banks, first, last) ==>
              forall b: nat, i: nat | b < |banks| && i < |banks[b].start| ::
                Taken(banks, first, last, b, i) <==> Inside(banks[b], i, first, last)
  {
    ContiguousApart(banks, base);
    if IsStart(banks, first) {
      GaplessStop(banks, base, first);
      forall b: nat, i: nat | b < |banks| && i < |banks[b].start|
        ensures banks[b].SectorEnd(i) < Base(banks, base, |banks|) && !TakenAgain(banks, first, last, b, i)
      {
        SectorInFlash(banks, base, b, i);
        GaplessNoWrap(banks, base, first, last, b, i);
      }
    }
  }
}
