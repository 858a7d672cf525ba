/**
 From the characters on the line to the packets seen: a sender's copies of its messages, damaged or not, with
 noise between them.
 */
module KermitLine {
  import opened Bytes
  import opened KermitFrame
  import opened KermitPrefix
  import opened KermitText
  import opened KermitSession
  import opened KermitDelivery

  /** Characters that neither start a packet nor interrupt the receiver. */
  predicate Noise(s: seq<byte>) { forall k | 0 <= k < |s| :: s[k] != START_CHAR && s[k] != ETX_CHAR }

  /** One copy of a message as far as the receiver must read it, and what follows before the next one starts. */
  datatype Copy = Copy(m: Message, chars: seq<byte>, noise: seq<byte>)

  /** As it was sent: a packet of the message, short or extended. */
  predicate Intact(c: Copy) { IsPacket(c.chars, c.m.n, c.m.kind, c.m.data) }

  /** Its number comes as sent, and the damage shows later. */
  ghost predicate Marred(c: Copy)
  {
    Ruined(c.chars) && |c.chars| > 2 && c.m.n < 224 && c.chars[1] == ToChar(c.m.n)
  }

  /** The damage shows in the length or the number. */
  ghost predicate Headless(c: Copy) { Ruined(c.chars) && |c.chars| <= 2 }

  ghost predicate Arrives(c: Copy) { Noise(c.noise) && (Intact(c) || Marred(c) || Headless(c)) }

  function Line(cs: seq<Copy>): seq<byte>
  {
    if cs == [] then [] else [START_CHAR] + cs[0].chars + (cs[0].noise + Line(cs[1..]))
  }

  /** What the receiver makes of a copy. */
  ghost predicate Shows(f: Frame, c: Copy)
  {
    if Intact(c) then CopyOf(f, c.m)
    else if Marred(c) then f.Rejected? && f.n == c.m.n
    else f.HeaderError?
  }

  // ----- one copy -----

  lemma {:induction false} NoiseSkipped(inp: seq<byte>, i: nat, j: nat)
    requires i <= j <= |inp| && Noise(inp[i..j])
    ensures WaitStart(inp, i) == WaitStart(inp, j)
    decreases j - i
  {
    if i < j {
      assert inp[i] == inp[i..j][0];
      assert inp[i + 1..j] == inp[i..j][1..];
      NoiseSkipped(inp, i + 1, j);
    }
  }

  lemma CopyRead(c: Copy)
    requires Arrives(c)
    ensures var f := ReadFrame(c.chars, 0); Shows(f, c) && !f.Starved? && f.next == |c.chars|
  {
    if Intact(c) {
      AcceptedIsPacket(c.chars, c.m.n, c.m.kind, c.m.data);
    } else {
      RuinedRead(c.chars);
      if Marred(c) {
        CharRoundTrip(c.m.n);
      }
    }
  }

  lemma SliceOccurs(s: seq<byte>, inp: seq<byte>, i: nat)
    requires i + |s| <= |inp| && inp[i..i + |s|] == s
    ensures Occurs(s, inp, i)
  {
    forall k | 0 <= k < |s| ensures s[k] == inp[i + k] {
      assert inp[i..i + |s|][k] == inp[i + k];
    }
  }

  lemma ShowsShifted(f: Frame, c: Copy, i: nat)
    requires Shows(f, c)
    ensures Shows(Shift(f, i), c)
  {
  }

  /** One copy is seen as one packet, and the receiver then waits for the next one. */
  lemma CopySeen(inp: seq<byte>, i: nat, c: Copy) returns (f: Frame)
    requires Arrives(c) && i + |c.chars| + |c.noise| <= |inp|
    requires inp[i..i + |c.chars|] == c.chars && inp[i + |c.chars|..i + |c.chars| + |c.noise|] == c.noise
    ensures f == ReadFrame(inp, i) && Shows(f, c) && f.next == i + |c.chars|
    ensures WaitStart(inp, f.next) == WaitStart(inp, i + |c.chars| + |c.noise|)
  {
    CopyRead(c);
    SliceOccurs(c.chars, inp, i);
    FrameLocal(c.chars, inp, i);
    f := ReadFrame(inp, i);
    ShowsShifted(ReadFrame(c.chars, 0), c, i);
    NoiseSkipped(inp, f.next, f.next + |c.noise|);
  }

  // ----- a whole line -----

  /** Packets and copies agree one by one. */
  ghost predicate AllShow(fs: seq<Frame>, cs: seq<Copy>)
  {
    |fs| == |cs| && forall k | 0 <= k < |cs| :: Shows(fs[k], cs[k])
  }

  predicate EndsSession(c: Copy) { Intact(c) && c.m.kind == BREAK_TYPE }

  /** The last copy, and no other, ends the session. */
  ghost predicate EndsOnce(cs: seq<Copy>)
  {
    && cs != [] && (forall k | 0 <= k < |cs| :: Arrives(cs[k]))
    && (forall k | 0 <= k < |cs| :: EndsSession(cs[k]) <==> k == |cs| - 1)
  }

  /** Where the parts of the first copy on the line lie. */
  lemma FirstCopy(inp: seq<byte>, i: nat, chars: seq<byte>, noise: seq<byte>, rest: seq<byte>)
    requires i <= |inp| && inp[i..] == [START_CHAR] + chars + (noise + rest)
    ensures var e := i + 1 + |chars|;
            && e + |noise| <= |inp| && inp[i] == START_CHAR
            && inp[i + 1..e] == chars && inp[e..e + |noise|] == noise && inp[e + |noise|..] == rest
  {
    var all, n := inp[i..], |chars|;
    assert inp[i] == all[0];
    assert inp[i + 1..i + 1 + n] == all[1..1 + n];
    assert inp[i + 1 + n..i + 1 + n + |noise|] == all[1 + n..1 + n + |noise|];
    assert inp[i + 1 + n + |noise|..] == all[1 + n + |noise|..];
  }

  lemma LineCons(cs: seq<Copy>, tail: seq<byte>)
    requires cs != []
    ensures Line(cs) + tail == [START_CHAR] + cs[0].chars + (cs[0].noise + (Line(cs[1..]) + tail))
  {
  }

  lemma EndsOnceTail(cs: seq<Copy>)
    requires EndsOnce(cs) && !EndsSession(cs[0])
    ensures EndsOnce(cs[1..])
  {
    assert forall k | 0 <= k < |cs| - 1 :: cs[1..][k] == cs[k + 1];
  }

  /** The packet that starts at `i`, and the packets from `e` on, where the receiver waits again. */
  lemma FramesStep(inp: seq<byte>, i: nat, c: Copy, f: Frame, e: nat)
    requires i < |inp| && inp[i] == START_CHAR && e <= |inp| && Shows(f, c) && f == ReadFrame(inp, i + 1)
    requires f.next <= |inp| && WaitStart(inp, f.next) == WaitStart(inp, e)
    ensures Frames(inp, i) == [f] + if EndsSession(c) then [] else Frames(inp, e)
  {
    assert WaitStart(inp, i) == StartAt(i + 1);
    assert IsBreak(f) <==> EndsSession(c);
    assert Frames(inp, f.next) == Frames(inp, e);
  }

  /** The first copy on the line is seen as the first packet, and the rest of the line follows. */
  lemma FirstSeen(inp: seq<byte>, i: nat, c: Copy, rest: seq<byte>) returns (f: Frame, e: nat)
    requires i <= |inp| && inp[i..] == [START_CHAR] + c.chars + (c.noise + rest) && Arrives(c)
    ensures e <= |inp| && inp[e..] == rest && Shows(f, c)
    ensures Frames(inp, i) == [f] + if EndsSession(c) then [] else Frames(inp, e)
  {
    FirstCopy(inp, i, c.chars, c.noise, rest);
    e := i + 1 + |c.chars| + |c.noise|;
    f := CopySeen(inp, i + 1, c);
    FramesStep(inp, i, c, f, e);
  }

  lemma AllShowCons(f: Frame, fs: seq<Frame>, cs: seq<Copy>)
    requires cs != [] && Shows(f, cs[0]) && AllShow(fs, cs[1..])
    ensures AllShow([f] + fs, cs)
  {
  }

  lemma LastCopy(cs: seq<Copy>)
    requires EndsOnce(cs)
    ensures Arrives(cs[0]) && (EndsSession(cs[0]) <==> cs[1..] == [])
  {
  }

  /** Every copy on the line is seen as one packet, in order; `tail` is whatever comes after the break. */
  lemma {:induction false} LineSeen(inp: seq<byte>, i: nat, cs: seq<Copy>, tail: seq<byte>)
    requires i <= |inp| && inp[i..] == Line(cs) + tail && EndsOnce(cs)
    ensures AllShow(Frames(inp, i), cs)
    decreases |cs|
  {
    LastCopy(cs);
    LineCons(cs, tail);
    var f, e := FirstSeen(inp, i, cs[0], Line(cs[1..]) + tail);
    var fs := [];
    if cs[1..] != [] {
      EndsOnceTail(cs);
      LineSeen(inp, e, cs[1..], tail);
      fs := Frames(inp, e);
    }
    AllShowCons(f, fs, cs);
  }

  // ----- groups of copies -----

  /** Copies of one message: the first arrives with its number, the last arrives whole. */
  ghost predicate Tries(cs: seq<Copy>, m: Message)
  {
    && cs != [] && (forall k | 0 <= k < |cs| :: Arrives(cs[k]) && cs[k].m == m)
    && (Intact(cs[0]) || Marred(cs[0])) && Intact(cs[|cs| - 1])
  }

  function FlatCopies(gs: seq<seq<Copy>>): seq<Copy>
  {
    if gs == [] then [] else FlatCopies(gs[..|gs| - 1]) + gs[|gs| - 1]
  }

  lemma AllShowSplit(fs: seq<Frame>, a: seq<Copy>, b: seq<Copy>)
    requires AllShow(fs, a + b)
    ensures AllShow(fs[..|a|], a) && AllShow(fs[|a|..], b)
  {
    forall k | 0 <= k < |a| ensures Shows(fs[..|a|][k], a[k]) {
      assert Shows(fs[k], (a + b)[k]);
    }
    forall k | 0 <= k < |b| ensures Shows(fs[|a|..][k], b[k]) {
      assert Shows(fs[|a| + k], (a + b)[|a| + k]);
    }
  }

  lemma FlattenSnoc(fss: seq<seq<Frame>>, fs: seq<Frame>)
    ensures Flatten(fss + [fs]) == Flatten(fss) + fs
  {
    assert (fss + [fs])[..|fss|] == fss;
  }

  /** Packets that show the copies of some groups fall into groups themselves. */
  lemma {:induction false} Grouped(fs: seq<Frame>, gs: seq<seq<Copy>>) returns (fss: seq<seq<Frame>>)
    requires AllShow(fs, FlatCopies(gs))
    ensures |fss| == |gs| && Flatten(fss) == fs && forall j | 0 <= j < |gs| :: AllShow(fss[j], gs[j])
    decreases |gs|
  {
    if gs == [] {
      fss := [];
    } else {
      var n := |gs| - 1;
      var a := FlatCopies(gs[..n]);
      AllShowSplit(fs, a, gs[n]);
      var fss' := Grouped(fs[..|a|], gs[..n]);
      FlattenSnoc(fss', fs[|a|..]);
      fss := fss' + [fs[|a|..]];
      assert fs[..|a|] + fs[|a|..] == fs;
    }
  }

  lemma TriesAreAttempts(fs: seq<Frame>, cs: seq<Copy>, m: Message)
    requires Tries(cs, m) && AllShow(fs, cs)
    ensures Attempts(fs, m)
  {
    forall k | 0 <= k < |fs| ensures CopyOf(fs[k], m) || fs[k].HeaderError? || (fs[k].Rejected? && fs[k].n == m.n) {
      assert Shows(fs[k], cs[k]);
    }
    assert Shows(fs[0], cs[0]) && Shows(fs[|fs| - 1], cs[|cs| - 1]);
  }

  /** A sender that gets every message through, and the break only once. */
  ghost predicate Sending(ms: seq<Message>, gs: seq<seq<Copy>>)
  {
    && |ms| == |gs| && (forall j | 0 <= j < |ms| :: Tries(gs[j], ms[j]))
    && (forall j | 0 < j < |ms| :: ms[j].n != ms[j - 1].n)
    && EndsOnce(FlatCopies(gs))
  }

  /** What the receiver sees of it is an exchange. */
  lemma LineIsExchange(inp: seq<byte>, i: nat, ms: seq<Message>, gs: seq<seq<Copy>>, tail: seq<byte>)
    returns (fss: seq<seq<Frame>>)
    requires i <= |inp| && inp[i..] == Line(FlatCopies(gs)) + tail && Sending(ms, gs)
    ensures Exchange(ms, fss) && Frames(inp, i) == Flatten(fss)
  {
    LineSeen(inp, i, FlatCopies(gs), tail);
    fss := Grouped(Frames(inp, i), gs);
    forall j | 0 <= j < |ms| ensures Attempts(fss[j], ms[j]) {
      TriesAreAttempts(fss[j], gs[j], ms[j]);
    }
  }

  // ----- two special lines -----

  /** The packets of a sender on an undisturbed line. */
  function Transmission(ps: seq<seq<byte>>): seq<byte>
  {
    if ps == [] then [] else [START_CHAR] + ps[0] + Transmission(ps[1..])
  }

  function WholeCopies(ms: seq<Message>, ps: seq<seq<byte>>): (cs: seq<Copy>)
    requires |ms| == |ps|
    ensures |cs| == |ms| && forall k | 0 <= k < |ms| :: cs[k] == Copy(ms[k], ps[k], [])
  {
    if ms == [] then [] else [Copy(ms[0], ps[0], [])] + WholeCopies(ms[1..], ps[1..])
  }

  lemma {:induction false} TransmissionIsLine(ms: seq<Message>, ps: seq<seq<byte>>)
    requires |ms| == |ps|
    ensures Line(WholeCopies(ms, ps)) == Transmission(ps)
    decreases |ms|
  {
    if ms != [] {
      TransmissionIsLine(ms[1..], ps[1..]);
      assert WholeCopies(ms, ps)[1..] == WholeCopies(ms[1..], ps[1..]);
      assert [] + Transmission(ps[1..]) == Transmission(ps[1..]);
    }
  }

  /** What a sender puts on an undisturbed line is seen as one accepted packet per message. */
  lemma {:induction false} CleanLine(inp: seq<byte>, i: nat, ms: seq<Message>, ps: seq<seq<byte>>)
    requires i <= |inp| && inp[i..] == Transmission(ps) && |ms| == |ps| > 0
    requires forall j | 0 <= j < |ms| :: IsPacket(ps[j], ms[j].n, ms[j].kind, ms[j].data)
    requires forall j | 0 <= j < |ms| :: ms[j].kind == BREAK_TYPE <==> j == |ms| - 1
    ensures |Frames(inp, i)| == |ms|
    ensures forall j | 0 <= j < |ms| :: CopyOf(Frames(inp, i)[j], ms[j])
  {
    var cs := WholeCopies(ms, ps);
    TransmissionIsLine(ms, ps);
    assert inp[i..] == Line(cs) + [];
    LineSeen(inp, i, cs, []);
  }

  lemma OneFed(q: byte, t: Text, d: byte)
    requires !t.escape && d != q
    ensures Feed(q, t, [d]) == Text(t.bytes + [d], false)
  {
    assert [d][1..] == [];
    assert Feed(q, t, [d]) == Feed(q, FeedChar(q, t, d), []);
  }

  lemma DataThenError(f: Frame, e: Frame, d: byte)
    requires d != K_ESCAPE && CopyOf(f, Message(1, DATA_TYPE, [d])) && e.HeaderError?
    ensures var st := Absorb(START, f);
            st.cur == Text([d], false) && st.ck == EMPTY && st.lastN == 1 && st.sent == Reply(DEFAULTS, 1, ACK_TYPE, [])
    ensures Absorb(Absorb(START, f), e) ==
            Station(DEFAULTS, EMPTY, EMPTY, 1, Reply(DEFAULTS, 1, ACK_TYPE, []) + Reply(DEFAULTS, 1, NACK_TYPE, []))
  {
    OneFed(K_ESCAPE, EMPTY, d);
    assert [] + [d] == [d];
    assert [] + Reply(DEFAULTS, 1, ACK_TYPE, []) == Reply(DEFAULTS, 1, ACK_TYPE, []);
  }

  lemma FoldThree(st: Station, fs: seq<Frame>)
    requires |fs| == 3
    ensures Fold(st, fs) == Absorb(Absorb(Absorb(st, fs[0]), fs[1]), fs[2])
  {
    FoldSnoc(st, [], fs[0]);
    FoldSnoc(st, [fs[0]], fs[1]);
    FoldSnoc(st, [fs[0], fs[1]], fs[2]);
    assert [] + [fs[0]] == [fs[0]] && [fs[0]] + [fs[1]] == [fs[0], fs[1]] && [fs[0], fs[1]] + [fs[2]] == fs;
  }

  /** A control character for a length is noticed at once. */
  lemma ControlRuins(x: byte)
    requires x < SPACE
    ensures Ruined([x])
  {
    NotAcceptedIsRuined([x]);
    assert [x][..1] == [x];
  }

  /** A data packet, a damaged header and a break, and the packets they are seen as. */
  lemma LateErrorSeen(inp: seq<byte>, d: byte) returns (fs: seq<Frame>)
    requires d >= SPACE
    requires inp == [START_CHAR] + ShortPacketOf(1, DATA_TYPE, [d]) + [START_CHAR, 0]
                    + [START_CHAR] + ShortPacketOf(2, BREAK_TYPE, [])
    ensures Frames(inp, 0) == fs && |fs| == 3 && CopyOf(fs[0], Message(1, DATA_TYPE, [d]))
    ensures fs[1].HeaderError? && CopyOf(fs[2], Message(2, BREAK_TYPE, []))
  {
    var m, b := Message(1, DATA_TYPE, [d]), Message(2, BREAK_TYPE, []);
    var p, q := ShortPacketOf(1, DATA_TYPE, [d]), ShortPacketOf(2, BREAK_TYPE, []);
    var cs := [Copy(m, p, []), Copy(m, [0], []), Copy(b, q, [])];
    ShortPacketAccepted(1, DATA_TYPE, [d]);
    ShortPacketAccepted(2, BREAK_TYPE, []);
    ControlRuins(0);
    ThreeCopies(cs[0], cs[1], cs[2]);
    assert inp[0..] == Line(cs) + [];
    LineSeen(inp, 0, cs, []);
    fs := Frames(inp, 0);
    assert Shows(fs[0], cs[0]) && Shows(fs[1], cs[1]) && Shows(fs[2], cs[2]);
  }

  /**
   Why a group must be closed by a whole copy: on this line a data packet is received and acknowledged, a damaged
   header follows, and the transfer then ends without the data.
   */
  lemma LateHeaderErrorLosesData(inp: seq<byte>, d: byte)
    requires d >= SPACE && d != K_ESCAPE
    requires inp == [START_CHAR] + ShortPacketOf(1, DATA_TYPE, [d]) + [START_CHAR, 0]
                    + [START_CHAR] + ShortPacketOf(2, BREAK_TYPE, [])
    ensures Session(inp, 0, START).Finished?
    ensures Session(inp, 0, START).station.cur == EMPTY
    ensures Session(inp, 0, START).station.sent ==
            Reply(DEFAULTS, 1, ACK_TYPE, []) + Reply(DEFAULTS, 1, NACK_TYPE, []) + Reply(DEFAULTS, 2, ACK_TYPE, [])
  {
    var fs := LateErrorSeen(inp, d);
    BreakEnds(inp, 0, START);
    FoldThree(START, fs);
    DataThenError(fs[0], fs[1], d);
  }

  lemma ThreeCopies(x: Copy, y: Copy, z: Copy)
    requires x.noise == [] && y.noise == [] && z.noise == []
    ensures Line([x, y, z]) == [START_CHAR] + x.chars + ([START_CHAR] + y.chars) + ([START_CHAR] + z.chars)
  {
    assert [x, y, z][1..] == [y, z] && [y, z][1..] == [z] && [z][1..] == [];
    assert Line([z]) == [START_CHAR] + z.chars + ([] + []);
    assert Line([y, z]) == [START_CHAR] + y.chars + ([] + Line([z]));
    assert Line([x, y, z]) == [START_CHAR] + x.chars + ([] + Line([y, z]));
  }
}
