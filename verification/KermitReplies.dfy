/**
 What the receiver says: the parameters it takes from a send-init packet, the offer it answers with, and one reply
 for every packet it has seen.
 */
module KermitReplies {
  import opened Bytes
  import opened KermitFrame
  import opened KermitText
  import opened KermitSession

  // ----- parameters -----

  /** The first six fields of a send-init packet: MAXL, TIME, NPAD, PADC, EOL, QCTL. */
  function SendInit(maxl: nat, time: nat, p: Parms): seq<byte>
  {
    [ToChar(maxl), ToChar(time), ToChar(p.padCount), if p.padChar / 64 % 2 == 0 then p.padChar + 64 else p.padChar - 64,
     ToChar(p.eol), p.quote]
  }

  /** A sender's parameters arrive: the first `k` fields as sent, the others as the protocol's defaults. */
  lemma ParmsBack(maxl: nat, time: nat, p: Parms, more: seq<byte>, k: nat)
    requires p.padCount < 224 && p.eol < 224 && Control(p.padChar) && k <= 6
    ensures ParmsOf(SendInit(maxl, time, p) + more) == p
    ensures ParmsOf(SendInit(maxl, time, p)[..k]) ==
            Parms(if k < 5 then 13 else p.eol, if k < 3 then 0 else p.padCount, if k < 4 then 0 else p.padChar,
                  if k < 6 then '#' as int else p.quote)
  {
    CharRoundTrip(p.padCount);
    CharRoundTrip(p.eol);
  }

  /** The offer, field by field, to a sender who has given `k` fields. */
  lemma OfferMeans(k: nat)
    ensures var o := Offered(k);
            && |o| == (if k < 10 then k else 13)
            && (k >= 1 ==> UnToChar(o[0]) == 94)                  // MAXL: short packets of up to 94 characters
            && (k >= 2 ==> UnToChar(o[1]) == 1)                   // TIME: a second
            && (k >= 3 ==> UnToChar(o[2]) == 0)                   // NPAD: no padding
            && (k >= 4 ==> KTrans(o[3]) == 0)                     // PADC: NUL
            && (k >= 5 ==> UnToChar(o[4]) == 13)                  // EOL: CR
            && (k >= 6 ==> o[5] == '#' as int)                    // QCTL
            && (k >= 7 ==> o[6] == 'N' as int)                    // QBIN: no
            && (k >= 8 ==> o[7] == '1' as int)                    // CHKT: one character
            && (k >= 9 ==> o[8] == 'N' as int)                    // REPT: no
            && (k >= 10 ==> UnToChar(o[9]) == 2 && UnToChar(o[10]) == 0)        // CAPAS: long packets, no windows
            && (k >= 10 ==> UnToChar(o[11]) * 95 + UnToChar(o[12]) == 9024)     // MAXLX: their length
  {
    OfferValues();
    assert forall j | 0 <= j < |Offered(k)| :: Offered(k)[j] == OFFER[j];
  }

  lemma OfferValues()
    ensures |OFFER| == 13 && OFFER[0] == 126 && OFFER[1] == 33 && OFFER[2] == 32 && OFFER[3] == 64 && OFFER[4] == 45
    ensures OFFER[5] == '#' as int && OFFER[6] == 'N' as int && OFFER[7] == '1' as int && OFFER[8] == 'N' as int
    ensures OFFER[9] == 34 && OFFER[10] == 32 && OFFER[11] == 126 && OFFER[12] == 126
  {
  }

  /** A sender who keeps to the offer is understood: packets of the offered lengths, ended as asked, are accepted. */
  lemma OfferHonoured(k: nat, n: nat, kind: byte, data: seq<byte>)
    requires k >= 10 && n < 224 && kind >= SPACE && Printable(data)
    ensures var o, short, long := Offered(k), ShortPacketOf(n, kind, data), LongPacketOf(n, kind, data);
            && (|data| + 3 <= UnToChar(o[0]) ==> ShortPacket(short, n, kind, data) && short[|short| - 1] == UnToChar(o[4]))
            && (|data| + 1 <= UnToChar(o[11]) * 95 + UnToChar(o[12]) ==>
                  LongPacket(long, n, kind, data) && long[|long| - 1] == UnToChar(o[4]))
  {
    OfferMeans(k);
    if |data| <= 220 {
      ShortPacketAccepted(n, kind, data);
    }
    if |data| + 1 <= 9024 {
      LongPacketAccepted(n, kind, data);
    }
  }

  // ----- replies -----

  /** Padding, START, a packet by the receiver's own rules, and the terminator that the other side has asked for. */
  ghost predicate IsReply(out: seq<byte>, p: Parms, n: nat, kind: byte, data: seq<byte>)
  {
    exists body :: IsPacket(body + [END_CHAR], n, kind, data) && Framed(out, p, body)
  }

  predicate Framed(out: seq<byte>, p: Parms, body: seq<byte>)
  {
    out == seq(p.padCount, _ => p.padChar) + [START_CHAR] + body + if p.eol == 0 then [] else [p.eol]
  }

  lemma ReplyGoes(p: Parms, n: nat, kind: byte, data: seq<byte>)
    requires n < 224 && kind >= SPACE && Printable(data) && |data| <= 220
    ensures IsReply(Reply(p, n, kind, data), p, n, kind, data)
  {
    var body := WithCheck([ToChar(|data| + 3), ToChar(n), kind] + data);
    ShortPacketAccepted(n, kind, data);
    assert body + [END_CHAR] == ShortPacketOf(n, kind, data);
    assert Framed(Reply(p, n, kind, data), p, body);
  }

  /** The parameters in force after `k` packets: those of the last send-init that was accepted. */
  function ParmsAfter(fs: seq<Frame>, k: nat): Parms
    requires k <= |fs|
  {
    if k == 0 then Parms(13, 0, 0, '#' as int)
    else if fs[k - 1].Accepted? && fs[k - 1].kind == 'S' as int then ParmsOf(fs[k - 1].data)
    else ParmsAfter(fs, k - 1)
  }

  /** Packet `k` is acknowledged if it was accepted, with an offer if it was a send-init; otherwise it is refused, under
      its number or, if that is not known, under the last one seen. */
  ghost predicate Answers(out: seq<byte>, fs: seq<Frame>, k: nat)
    requires k < |fs|
  {
    var p, last := ParmsAfter(fs, k + 1), NumberAfter(fs, k);
    if fs[k].Accepted? then
      IsReply(out, p, fs[k].n, 'Y' as int, if fs[k].kind == 'S' as int then Offered(|fs[k].data|) else [])
    else if fs[k].Rejected? then IsReply(out, p, fs[k].n, 'N' as int, [])
    else IsReply(out, p, if last < 0 then 0 else last, 'N' as int, [])
  }

  predicate Numbered(f: Frame) { !f.Starved? && (f.Accepted? || f.Rejected? ==> f.n < 224) }

  predicate AllNumbered(fs: seq<Frame>) { forall j | 0 <= j < |fs| :: Numbered(fs[j]) }

  function AllOf(outs: seq<seq<byte>>): seq<byte>
  {
    if outs == [] then [] else AllOf(outs[..|outs| - 1]) + outs[|outs| - 1]
  }

  lemma {:induction false} StateAfter(fs: seq<Frame>, k: nat)
    requires k <= |fs| && AllNumbered(fs)
    ensures var st := Fold(START, fs[..k]); st.parms == ParmsAfter(fs, k) && st.lastN == NumberAfter(fs, k) < 224
    decreases k
  {
    if k > 0 {
      StateAfter(fs, k - 1);
      FoldSnoc(START, fs[..k - 1], fs[k - 1]);
      assert fs[..k] == fs[..k - 1] + [fs[k - 1]];
      StateOf(Fold(START, fs[..k - 1]), fs[k - 1]);
    }
  }

  lemma StateOf(st: Station, f: Frame)
    requires Numbered(f)
    ensures Absorb(st, f).parms == if f.Accepted? && f.kind == 'S' as int then ParmsOf(f.data) else st.parms
    ensures Absorb(st, f).lastN == if f.Accepted? || f.Rejected? then f.n else st.lastN
  {
  }

  /** One packet, one reply. */
  lemma OneAnswer(fs: seq<Frame>, k: nat) returns (out: seq<byte>)
    requires k < |fs| && AllNumbered(fs)
    ensures Fold(START, fs[..k + 1]).sent == Fold(START, fs[..k]).sent + out && Answers(out, fs, k)
  {
    var st, f := Fold(START, fs[..k]), fs[k];
    StateAfter(fs, k);
    FoldSnoc(START, fs[..k], f);
    assert fs[..k + 1] == fs[..k] + [f];
    out := AnswerTo(st, f);
    StateAfter(fs, k + 1);
  }

  lemma AnswerTo(st: Station, f: Frame) returns (out: seq<byte>)
    requires Numbered(f) && st.lastN < 224
    ensures Absorb(st, f).sent == st.sent + out
    ensures var p := Absorb(st, f).parms;
            if f.Accepted? then IsReply(out, p, f.n, 'Y' as int, if f.kind == 'S' as int then Offered(|f.data|) else [])
            else if f.Rejected? then IsReply(out, p, f.n, 'N' as int, [])
            else IsReply(out, p, if st.lastN < 0 then 0 else st.lastN, 'N' as int, [])
  {
    var p := Absorb(st, f).parms;
    if f.Accepted? {
      var data := if f.kind == SEND_TYPE then Offered(|f.data|) else [];
      assert Printable(OFFER);
      ReplyGoes(p, f.n, ACK_TYPE, data);
      out := Reply(p, f.n, ACK_TYPE, data);
    } else {
      var n := if f.Rejected? then f.n else if st.lastN < 0 then 0 else st.lastN;
      ReplyGoes(p, n, NACK_TYPE, []);
      out := Reply(p, n, NACK_TYPE, []);
    }
  }

  /** All replies of a run, one for each packet and in order. */
  lemma {:induction false} Answered(fs: seq<Frame>, k: nat) returns (outs: seq<seq<byte>>)
    requires k <= |fs| && AllNumbered(fs)
    ensures |outs| == k && AllOf(outs) == Fold(START, fs[..k]).sent && forall j | 0 <= j < k :: Answers(outs[j], fs, j)
    decreases k
  {
    if k == 0 {
      outs := [];
    } else {
      var before := Answered(fs, k - 1);
      var out := OneAnswer(fs, k - 1);
      outs := before + [out];
      assert outs[..k - 1] == before;
    }
  }

  lemma {:induction false} FramesNumbered(inp: seq<byte>, i: nat)
    requires i <= |inp|
    ensures AllNumbered(Frames(inp, i))
    decreases |inp| - i
  {
    var w := WaitStart(inp, i);
    if w.StartAt? && !ReadFrame(inp, w.next).Starved? {
      FramesNumbered(inp, ReadFrame(inp, w.next).next);
    }
  }

  /** For every line on which a run ends: each packet seen has been answered, in order, and nothing else was sent. */
  lemma RunAnswered(inp: seq<byte>) returns (outs: seq<seq<byte>>)
    requires Session(inp, 0, START).Finished?
    ensures |outs| == |Frames(inp, 0)| && Session(inp, 0, START).station.sent == AllOf(outs)
    ensures forall j | 0 <= j < |outs| :: Answers(outs[j], Frames(inp, 0), j)
  {
    var fs := Frames(inp, 0);
    FramesNumbered(inp, 0);
    SessionIsFold(inp, 0, START);
    outs := Answered(fs, |fs|);
    assert fs[..|fs|] == fs;
  }

  /** ^C between packets ends the run, whatever came before it on the line. */
  lemma {:induction false} Interrupts(inp: seq<byte>, i: nat, j: nat, st: Station)
    requires i <= j < |inp| && inp[j] == 3 && forall k | i <= k < j :: inp[k] != 1
    ensures Session(inp, i, st).Interrupted?
    decreases j - i
  {
    if i < j && inp[i] != 3 {
      Interrupts(inp, i + 1, j, st);
      assert WaitStart(inp, i) == WaitStart(inp, i + 1);
    }
  }
}
