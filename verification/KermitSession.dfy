/**
 A whole Kermit transfer, as a fold over what became of each packet: the stop-and-wait
 checkpoint discipline of `k_recv`, the replies it sends, and what a finished transfer
 has stored.
 */
module KermitSession {
  import opened Bytes
  import opened KermitFrame
  import opened KermitText

  // ----- protocol parameters and replies -----

  datatype Parms = Parms(eol: byte, padCount: nat, padChar: byte, quote: byte)

  const DEFAULTS := Parms(END_CHAR, 0, 0, K_ESCAPE)

  /** How many of `k` received send-init characters are looked at: the last slot of the buffer never is. */
  function ParmCount(k: nat): nat { if k >= 19 then 18 else k }

  function ParmsOf(data: seq<byte>): Parms
  {
    var k := ParmCount(|data|);
    Parms(if k >= 5 then UnToChar(data[4]) else END_CHAR,
          if k >= 3 then UnToChar(data[2]) else 0,
          if k >= 4 then KTrans(data[3]) else 0,
          if k >= 6 then data[5] else K_ESCAPE)
  }

  /** MAXL, TIME, NPAD, PADC, EOL, QCTL, QBIN, CHKT, REPT and the four characters of CAPAS. */
  const OFFER: seq<byte> := [126, 33, 32, 64, 45, 35, 78, 49, 78, 34, 32, 126, 126]

  /** The answer to a send-init packet: one field for each one offered, all of CAPAS if it was offered. */
  function Offered(k: nat): seq<byte> { if ParmCount(k) >= 10 then OFFER else OFFER[..ParmCount(k)] }

  function Pads(p: Parms): seq<byte> { seq(p.padCount, _ => p.padChar) }

  /** A reply as it goes out: padding, mark, packet, and the terminator the other side asked for (none if NUL). */
  function Reply(p: Parms, n: int, kind: byte, data: seq<byte>): seq<byte>
  {
    Pads(p) + [START_CHAR] + WithCheck([ToChar(|data| + 3), ToChar(n), kind] + data) +
    if p.eol == 0 then [] else [p.eol]
  }

  /** Replies obey the rules `k_recv` itself applies to length and block check, for every number and offer. */
  lemma ReplyIsPacket(p: Parms, n: nat, kind: byte, k: nat)
    requires n < 224 && kind >= SPACE
    ensures var packet := Reply(p, n, kind, Offered(k))[p.padCount + 1..];
            IsPacket((if p.eol == 0 then packet else packet[..|packet| - 1]) + [END_CHAR], n, kind, Offered(k))
  {
    var data := Offered(k);
    assert Printable(OFFER);
    ShortPacketAccepted(n, kind, data);
    var body := WithCheck([ToChar(|data| + 3), ToChar(n), kind] + data);
    var packet := Reply(p, n, kind, data)[p.padCount + 1..];
    if p.eol == 0 {
      assert packet == body;
    } else {
      assert packet[..|packet| - 1] == body;
    }
  }

  // ----- the receiver's abstract state -----

  /** `ck` is the checkpoint, `cur` what has been stored, `lastN` the last sequence number seen (-1: none). */
  datatype Station = Station(parms: Parms, ck: Text, cur: Text, lastN: int, sent: seq<byte>)

  const START := Station(DEFAULTS, EMPTY, EMPTY, -1, [])

  /** A known sequence number: repeat means roll back, a new one means checkpoint. */
  function Enter(st: Station, n: nat): Station
  {
    if n == st.lastN then st.(cur := st.ck) else st.(ck := st.cur, lastN := n)
  }

  function NackNumber(st: Station): int { if st.lastN < 0 then 0 else st.lastN }

  /** The rest of a packet whose number has been entered. */
  function Answer(e: Station, f: Frame): Station
    requires f.Rejected? || f.Accepted?
  {
    match f
    case Rejected(n, _) => e.(cur := e.ck, sent := e.sent + Reply(e.parms, n, NACK_TYPE, []))
    case Accepted(n, kind, data, _) =>
      if kind == DATA_TYPE then
        e.(cur := Feed(e.parms.quote, e.cur, data), sent := e.sent + Reply(e.parms, n, ACK_TYPE, []))
      else if kind == SEND_TYPE then
        e.(parms := ParmsOf(data), sent := e.sent + Reply(ParmsOf(data), n, ACK_TYPE, Offered(|data|)))
      else
        e.(sent := e.sent + Reply(e.parms, n, ACK_TYPE, []))
  }

  function Absorb(st: Station, f: Frame): Station
  {
    match f
    case Starved => st
    case HeaderError(_) =>
      st.(cur := st.ck, sent := st.sent + Reply(st.parms, NackNumber(st), NACK_TYPE, []))
    case _ => Answer(Enter(st, f.n), f)
  }

  function Fold(st: Station, fs: seq<Frame>): Station
    decreases |fs|
  {
    if fs == [] then st else Absorb(Fold(st, fs[..|fs| - 1]), fs[|fs| - 1])
  }

  lemma FoldSnoc(st: Station, fs: seq<Frame>, f: Frame)
    ensures Fold(st, fs + [f]) == Absorb(Fold(st, fs), f)
  {
    assert (fs + [f])[..|fs|] == fs;
  }

  lemma {:induction false} FoldAppend(st: Station, fs: seq<Frame>, gs: seq<Frame>)
    ensures Fold(st, fs + gs) == Fold(Fold(st, fs), gs)
    decreases |gs|
  {
    if gs == [] {
      assert fs + gs == fs;
    } else {
      assert (fs + gs)[..|fs + gs| - 1] == fs + gs[..|gs| - 1];
      FoldAppend(st, fs, gs[..|gs| - 1]);
    }
  }

  // ----- from characters to packets -----

  datatype Wait = NoStart | CtrlC | StartAt(next: nat)

  function WaitStart(inp: seq<byte>, i: nat): (w: Wait)
    requires i <= |inp|
    ensures w.StartAt? ==> i < w.next <= |inp|
    decreases |inp| - i
  {
    if i == |inp| then NoStart
    else if inp[i] == START_CHAR then StartAt(i + 1)
    else if inp[i] == ETX_CHAR then CtrlC
    else WaitStart(inp, i + 1)
  }

  /** `Blocked`: the receiver still waits for a character. `Interrupted`: ^C between packets. */
  datatype Outcome = Blocked | Interrupted | Finished(station: Station)

  function Session(inp: seq<byte>, i: nat, st: Station): Outcome
    requires i <= |inp|
    decreases |inp| - i
  {
    match WaitStart(inp, i)
    case NoStart => Blocked
    case CtrlC => Interrupted
    case StartAt(j) =>
      var f := ReadFrame(inp, j);
      if f.Starved? then Blocked
      else if f.Accepted? && f.kind == BREAK_TYPE then Finished(Absorb(st, f))
      else Session(inp, f.next, Absorb(st, f))
  }

  /** The packets seen from index `i` on, through the one that ends the transmission. */
  function Frames(inp: seq<byte>, i: nat): seq<Frame>
    requires i <= |inp|
    decreases |inp| - i
  {
    var w := WaitStart(inp, i);
    if !w.StartAt? then []
    else
      var f := ReadFrame(inp, w.next);
      if f.Starved? then []
      else if f.Accepted? && f.kind == BREAK_TYPE then [f]
      else [f] + Frames(inp, f.next)
  }

  lemma {:induction false} SessionIsFold(inp: seq<byte>, i: nat, st: Station)
    requires i <= |inp|
    ensures Session(inp, i, st).Finished? ==> Session(inp, i, st).station == Fold(st, Frames(inp, i))
    decreases |inp| - i
  {
    var w := WaitStart(inp, i);
    if w.StartAt? {
      var f := ReadFrame(inp, w.next);
      FoldSnoc(st, [], f);
      assert [] + [f] == [f];
      if !f.Starved? && !(f.Accepted? && f.kind == BREAK_TYPE) {
        SessionIsFold(inp, f.next, Absorb(st, f));
        FoldAppend(st, [f], Frames(inp, f.next));
      }
    }
  }

  predicate IsBreak(f: Frame) { f.Accepted? && f.kind == BREAK_TYPE }

  /** A line whose packets lead up to a break packet ends the session. */
  lemma {:induction false} BreakEnds(inp: seq<byte>, i: nat, st: Station)
    requires i <= |inp| && Frames(inp, i) != [] && IsBreak(Frames(inp, i)[|Frames(inp, i)| - 1])
    ensures Session(inp, i, st).Finished? && Session(inp, i, st).station == Fold(st, Frames(inp, i))
    decreases |inp| - i
  {
    var w := WaitStart(inp, i);
    var f := ReadFrame(inp, w.next);
    if !IsBreak(f) {
      BreakEnds(inp, f.next, Absorb(st, f));
    }
    SessionIsFold(inp, i, st);
  }

  // ----- what survives, for every run -----

  /** The sequence number in force after the first `k` packets. */
  function NumberAfter(fs: seq<Frame>, k: nat): int
    requires k <= |fs|
  {
    if k == 0 then -1
    else if fs[k - 1].Rejected? || fs[k - 1].Accepted? then fs[k - 1].n
    else NumberAfter(fs, k - 1)
  }

  function QuoteAfter(fs: seq<Frame>, k: nat): byte
    requires k <= |fs|
  {
    if k == 0 then K_ESCAPE
    else if fs[k - 1].Accepted? && fs[k - 1].kind == SEND_TYPE then ParmsOf(fs[k - 1].data).quote
    else QuoteAfter(fs, k - 1)
  }

  predicate StartsGroup(fs: seq<Frame>, i: nat)
    requires i < |fs|
  {
    (fs[i].Rejected? || fs[i].Accepted?) && fs[i].n != NumberAfter(fs, i)
  }

  /** A packet's data is kept exactly when it is accepted and nothing of its group comes after it. */
  predicate Survives(fs: seq<Frame>, i: nat)
    requires i < |fs|
  {
    && fs[i].Accepted? && fs[i].kind == DATA_TYPE
    && (i + 1 < |fs| ==> StartsGroup(fs, i + 1))
  }

  function Survivors(fs: seq<Frame>, k: nat): seq<Piece>
    requires k <= |fs|
  {
    if k == 0 then []
    else if Survives(fs, k - 1) then Survivors(fs, k - 1) + [Piece(QuoteAfter(fs, k - 1), fs[k - 1].data)]
    else Survivors(fs, k - 1)
  }

  /** What is known after `k` packets depends on those packets only, and what survives of the first ones on one more. */
  lemma {:induction false} PrefixFacts(es: seq<Frame>, fs: seq<Frame>, k: nat)
    requires es <= fs && k <= |es|
    ensures NumberAfter(fs, k) == NumberAfter(es, k)
    ensures QuoteAfter(fs, k) == QuoteAfter(es, k)
    ensures k < |es| ==> Survivors(fs, k) == Survivors(es, k)
  {
    if k > 0 {
      assert fs[k - 1] == es[k - 1];
      PrefixFacts(es, fs, k - 1);
      if k < |es| {
        PrefixNumber(es, fs, k);
        assert fs[k] == es[k];
      }
    }
  }

  lemma {:induction false} PrefixNumber(es: seq<Frame>, fs: seq<Frame>, k: nat)
    requires es <= fs && k <= |es|
    ensures NumberAfter(fs, k) == NumberAfter(es, k)
  {
    if k > 0 {
      assert fs[k - 1] == es[k - 1];
      PrefixNumber(es, fs, k - 1);
    }
  }

  /**
   The delivery theorem, for every sequence of packets whatever their damage: what is stored is the
   unquoting of the surviving data fields in order, and the checkpoint is what the closed groups left.
   */
  lemma {:induction false} Delivered(fs: seq<Frame>)
    requires Starved !in fs
    ensures var st := Fold(START, fs);
            && st.cur == FeedAll(EMPTY, Survivors(fs, |fs|))
            && st.ck == FeedAll(EMPTY, Survivors(fs, if |fs| == 0 then 0 else |fs| - 1))
            && st.lastN == NumberAfter(fs, |fs|)
            && st.parms.quote == QuoteAfter(fs, |fs|)
    decreases |fs|
  {
    if fs != [] {
      var n := |fs| - 1;
      var es, f := fs[..n], fs[n];
      assert fs == es + [f];
      Delivered(es);
      PrefixFacts(es, fs, n);
      ClosedOrDropped(es, fs);
      LastPiece(fs, n);
      Entered(Fold(START, es), f);
    }
  }

  /** The last packet of a run adds its data, if it has any. */
  lemma LastPiece(fs: seq<Frame>, n: nat)
    requires n + 1 == |fs|
    ensures FeedAll(EMPTY, Survivors(fs, n + 1)) ==
            if fs[n].Accepted? && fs[n].kind == DATA_TYPE
            then Feed(QuoteAfter(fs, n), FeedAll(EMPTY, Survivors(fs, n)), fs[n].data)
            else FeedAll(EMPTY, Survivors(fs, n))
  {
    FeedAllSnoc(EMPTY, Survivors(fs, n), Piece(QuoteAfter(fs, n), if fs[n].Accepted? then fs[n].data else []));
  }

  /** What one packet does to the text: a new number moves the checkpoint, everything else starts from it. */
  lemma Entered(st: Station, f: Frame)
    requires !f.Starved?
    ensures var r := Absorb(st, f);
            && r.ck == (if (f.Rejected? || f.Accepted?) && f.n != st.lastN then st.cur else st.ck)
            && r.cur == (if f.Accepted? && f.kind == DATA_TYPE then Feed(st.parms.quote, r.ck, f.data) else r.ck)
            && r.lastN == (if f.Rejected? || f.Accepted? then f.n else st.lastN)
            && r.parms.quote == if f.Accepted? && f.kind == SEND_TYPE then ParmsOf(f.data).quote else st.parms.quote
  {
  }

  /** The data of packet `n - 1` is kept if packet `n` starts a group. */
  lemma KeptOrDropped(fs: seq<Frame>, es: seq<Frame>, n: nat)
    requires 0 < n == |es| < |fs| && fs[n - 1] == es[n - 1]
    requires Survivors(fs, n - 1) == Survivors(es, n - 1) && QuoteAfter(fs, n - 1) == QuoteAfter(es, n - 1)
    ensures Survivors(fs, n) == if StartsGroup(fs, n) then Survivors(es, n) else Survivors(es, n - 1)
  {
    assert Survives(fs, n - 1) <==> Survives(es, n - 1) && StartsGroup(fs, n);
  }

  /** One more packet either closes the last group, keeping its survivor, or reopens it, dropping that survivor. */
  lemma ClosedOrDropped(es: seq<Frame>, fs: seq<Frame>)
    requires es < fs
    ensures var n := |es|;
            Survivors(fs, n) ==
            if StartsGroup(fs, n) then Survivors(es, n) else Survivors(es, if n == 0 then 0 else n - 1)
  {
    var n := |es|;
    if n > 0 {
      PrefixFacts(es, fs, n - 1);
      KeptOrDropped(fs, es, n);
    }
  }
}
